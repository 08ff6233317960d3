/** The path rules of the store: the System.IO.Path operations it calls
    (GetExtension, GetFileName, GetFileNameWithoutExtension, Combine) on a
    Windows file system, and its own AddEndingSlash, IsDirectory,
    IsWorkingDirectory, GetStringKey and IsProcessorFile. */
module Paths {
  import opened Wrappers
  import opened Text

  /** Path.DirectorySeparatorChar and Path.AltDirectorySeparatorChar
      (IsDirectorySeparatorSymbol). */
  predicate IsSeparator(c: char) {
    c == '\\' || c == '/'
  }

  /** A separator or the volume separator ':'. */
  predicate IsPathBreak(c: char) {
    IsSeparator(c) || c == ':'
  }

  predicate NoPathBreak(s: string) {
    forall i :: 0 <= i < |s| ==> !IsPathBreak(s[i])
  }

  /** Scanning path[..i] from its end: the position of the last '.' that no
      separator follows. */
  function DotBefore(path: string, i: nat): (r: Option<nat>)
    requires i <= |path|
    ensures r.Some? ==> r.value < i && path[r.value] == '.'
    ensures r.Some? ==> forall j :: r.value < j < i ==> path[j] != '.' && !IsPathBreak(path[j])
  {
    if i == 0 then None
    else if path[i - 1] == '.' then Some(i - 1)
    else if IsPathBreak(path[i - 1]) then None
    else DotBefore(path, i - 1)
  }

  /** Path.GetExtension: from the last '.' of the file name to the end, or
      "" when the name has no '.' or ends with it. */
  function GetExtension(path: string): (ext: string)
    ensures ext == [] || (2 <= |ext| <= |path| && ext[0] == '.' && ext == path[|path| - |ext|..])
    ensures forall j :: 1 <= j < |ext| ==> ext[j] != '.' && !IsPathBreak(ext[j])
  {
    match DotBefore(path, |path|)
    case None => []
    case Some(i) => if i == |path| - 1 then [] else path[i..]
  }

  /** Without a '.' after the last separator there is no extension. */
  lemma {:induction false} DotBeforeNone(path: string, i: nat)
    requires i <= |path|
    requires forall j :: 0 <= j < i ==> path[j] != '.'
    ensures DotBefore(path, i) == None
  {
    if i > 0 {
      DotBeforeNone(path, i - 1);
    }
  }

  /** A name, a '.', and a non-empty extension with no '.' and no separator:
      the extension is exactly that. */
  lemma {:induction false} DotBeforeSuffix(name: string, ext: string, i: nat)
    requires |name| + 1 <= i <= |name| + 1 + |ext|
    requires forall j :: 0 <= j < |ext| ==> ext[j] != '.' && !IsPathBreak(ext[j])
    ensures DotBefore(name + "." + ext, i) == Some(|name|)
  {
    var path := name + "." + ext;
    if i > |name| + 1 {
      assert path[i - 1] == ext[i - 1 - |name| - 1];
      DotBeforeSuffix(name, ext, i - 1);
    }
  }

  lemma GetExtensionOfSuffix(name: string, ext: string)
    requires ext != []
    requires forall j :: 0 <= j < |ext| ==> ext[j] != '.' && !IsPathBreak(ext[j])
    ensures GetExtension(name + "." + ext) == "." + ext
  {
    DotBeforeSuffix(name, ext, |name + "." + ext|);
    assert (name + "." + ext)[|name|..] == "." + ext;
  }

  /** Scanning path[..i] from its end: the position just after the last
      separator or ':', or 0. */
  function NameStart(path: string, i: nat): (r: nat)
    requires i <= |path|
    ensures r <= i
    ensures r > 0 ==> IsPathBreak(path[r - 1])
    ensures forall j :: r <= j < i ==> !IsPathBreak(path[j])
  {
    if i == 0 then 0
    else if IsPathBreak(path[i - 1]) then i
    else NameStart(path, i - 1)
  }

  /** Path.GetFileName: the part after the last separator or ':'. */
  function GetFileName(path: string): (r: string)
    ensures NoPathBreak(r)
    ensures |r| <= |path| && r == path[|path| - |r|..]
  {
    path[NameStart(path, |path|)..]
  }

  /** Scanning name[..i] from its end: the position of the last '.'. */
  function LastDot(name: string, i: nat): (r: Option<nat>)
    requires i <= |name|
    ensures r.Some? ==> r.value < i && name[r.value] == '.'
    ensures r.Some? ==> forall j :: r.value < j < i ==> name[j] != '.'
    ensures r.None? ==> forall j :: 0 <= j < i ==> name[j] != '.'
  {
    if i == 0 then None
    else if name[i - 1] == '.' then Some(i - 1)
    else LastDot(name, i - 1)
  }

  /** Path.GetFileNameWithoutExtension: the file name cut at its last '.'. */
  function GetFileNameWithoutExtension(path: string): (r: string)
    ensures NoPathBreak(r)
  {
    var name := GetFileName(path);
    match LastDot(name, |name|)
    case None => name
    case Some(i) => name[..i]
  }

  /** Path.IsPathRooted: a leading separator or a drive ("c:"). */
  predicate IsPathRooted(p: string) {
    (|p| >= 1 && IsSeparator(p[0])) || (|p| >= 2 && p[1] == ':')
  }

  /** Path.Combine(a, b). */
  function Combine(a: string, b: string): string {
    if b == [] then a
    else if a == [] then b
    else if IsPathRooted(b) then b
    else if IsPathBreak(a[|a| - 1]) then a + b
    else a + "\\" + b
  }

  /** A file name with no separator is appended to the folder: Combine ends
      with it, preceded by a separator or ':' unless the folder was empty. */
  lemma CombineEndsWithName(folder: string, name: string)
    requires name != [] && NoPathBreak(name)
    ensures |Combine(folder, name)| >= |name|
    ensures Combine(folder, name)[|Combine(folder, name)| - |name|..] == name
    ensures var c := Combine(folder, name);
            |c| == |name| || IsPathBreak(c[|c| - |name| - 1])
  {
    assert !IsPathRooted(name);
    var c := Combine(folder, name);
    if folder != [] && !IsPathBreak(folder[|folder| - 1]) {
      assert c == (folder + "\\") + name;
    }
  }

  /** CreateImagePath: Path.Combine(folder, name) + "." + extension. */
  function CreateImagePath(folder: string, name: string, ext: string): string {
    Combine(folder, name) + "." + ext
  }

  /** An extension fit for file names: non-empty, with no '.' and no
      separator. */
  predicate IsPlainExtension(ext: string) {
    ext != [] && forall j :: 0 <= j < |ext| ==> ext[j] != '.' && !IsPathBreak(ext[j])
  }

  /** After a prefix that is empty or ends with a break, the file name is
      everything that follows. */
  lemma {:induction false} NameStartAfterBreak(prefix: string, fname: string, i: nat)
    requires prefix == [] || IsPathBreak(prefix[|prefix| - 1])
    requires NoPathBreak(fname)
    requires |prefix| <= i <= |prefix| + |fname|
    ensures NameStart(prefix + fname, i) == |prefix|
  {
    var path := prefix + fname;
    if i > |prefix| {
      assert path[i - 1] == fname[i - 1 - |prefix|];
      NameStartAfterBreak(prefix, fname, i - 1);
    } else if i > 0 {
      assert path[i - 1] == prefix[|prefix| - 1];
    }
  }

  lemma FileNameAfterBreak(prefix: string, fname: string)
    requires prefix == [] || IsPathBreak(prefix[|prefix| - 1])
    requires NoPathBreak(fname)
    ensures GetFileName(prefix + fname) == fname
  {
    NameStartAfterBreak(prefix, fname, |prefix + fname|);
    assert (prefix + fname)[|prefix|..] == fname;
  }

  /** The last '.' of name + "." + ext is the one before ext. */
  lemma {:induction false} LastDotBeforeExtension(name: string, ext: string, i: nat)
    requires forall j :: 0 <= j < |ext| ==> ext[j] != '.'
    requires |name| + 1 <= i <= |name| + 1 + |ext|
    ensures LastDot(name + "." + ext, i) == Some(|name|)
  {
    var fname := name + "." + ext;
    if i > |name| + 1 {
      assert fname[i - 1] == ext[i - 1 - |name| - 1];
      LastDotBeforeExtension(name, ext, i - 1);
    } else {
      assert fname[i - 1] == '.';
    }
  }

  lemma NameWithExtensionHasNoBreak(name: string, ext: string)
    requires NoPathBreak(name) && IsPlainExtension(ext)
    ensures NoPathBreak(name + "." + ext)
  {
    var fname := name + "." + ext;
    forall j | 0 <= j < |fname| ensures !IsPathBreak(fname[j]) {
      if j > |name| {
        assert fname[j] == ext[j - |name| - 1];
      }
    }
  }

  /** A created image path is the folder part followed by name + "." + ext. */
  lemma CreateImagePathSplit(folder: string, name: string, ext: string) returns (prefix: string)
    requires name != [] && NoPathBreak(name)
    ensures prefix == [] || IsPathBreak(prefix[|prefix| - 1])
    ensures CreateImagePath(folder, name, ext) == prefix + (name + "." + ext)
  {
    var c := Combine(folder, name);
    CombineEndsWithName(folder, name);
    prefix := c[..|c| - |name|];
    assert c == prefix + name;
    calc {
      CreateImagePath(folder, name, ext);
      (prefix + name) + "." + ext;
      prefix + (name + "." + ext);
    }
  }

  /** The file name of a created image path is name + "." + ext. */
  lemma CreateImagePathFileName(folder: string, name: string, ext: string)
    requires name != [] && NoPathBreak(name) && IsPlainExtension(ext)
    ensures GetFileName(CreateImagePath(folder, name, ext)) == name + "." + ext
  {
    var prefix := CreateImagePathSplit(folder, name, ext);
    NameWithExtensionHasNoBreak(name, ext);
    FileNameAfterBreak(prefix, name + "." + ext);
  }

  /** A file name ending in "." + ext, with ext free of dots, loses exactly
      that ending. */
  lemma FileNameWithoutExtensionOf(path: string, name: string, ext: string)
    requires forall j :: 0 <= j < |ext| ==> ext[j] != '.'
    requires GetFileName(path) == name + "." + ext
    ensures GetFileNameWithoutExtension(path) == name
  {
    var fname := name + "." + ext;
    LastDotBeforeExtension(name, ext, |fname|);
    assert fname[..|name|] == name;
  }

  /** The file name without extension of a created image path is the name it
      was created from. */
  lemma CreateImagePathName(folder: string, name: string, ext: string)
    requires name != [] && NoPathBreak(name) && IsPlainExtension(ext)
    ensures GetFileNameWithoutExtension(CreateImagePath(folder, name, ext)) == name
  {
    CreateImagePathFileName(folder, name, ext);
    FileNameWithoutExtensionOf(CreateImagePath(folder, name, ext), name, ext);
  }

  /** The extension of a created image path is the storage's. */
  lemma CreateImagePathExtension(folder: string, name: string, ext: string)
    requires IsPlainExtension(ext)
    ensures GetExtension(CreateImagePath(folder, name, ext)) == "." + ext
  {
    GetExtensionOfSuffix(Combine(folder, name), ext);
  }

  /** AddEndingSlash: "" stays ""; otherwise a '\' is appended unless the
      path already ends with a separator. */
  function AddEndingSlash(path: string): (r: string)
    ensures path == [] ==> r == []
    ensures path != [] ==> |path| <= |r| && IsSeparator(r[|r| - 1]) && r[..|path|] == path
    ensures path != [] && IsSeparator(path[|path| - 1]) ==> r == path
    ensures path != [] && !IsSeparator(path[|path| - 1]) ==> r == path + "\\"
  {
    if path == [] then []
    else if IsSeparator(path[|path| - 1]) then path
    else path + "\\"
  }

  /** Adding the slash twice adds it once. */
  lemma AddEndingSlashIdempotent(path: string)
    ensures AddEndingSlash(AddEndingSlash(path)) == AddEndingSlash(path)
  {
  }

  /** IsDirectory: a non-empty path that ends with a separator or has no
      extension. */
  predicate IsDirectory(path: string) {
    path != [] && (IsSeparator(path[|path| - 1]) || GetExtension(path) == [])
  }

  /** GetStringKey: the dictionary key of a path, its lower-case form. */
  function GetStringKey(path: string): (key: string)
    ensures |key| == |path|
  {
    if path == [] then [] else Lower(path)
  }

  /** Paths that differ only in case share a key. */
  lemma GetStringKeyIgnoresCase(a: string, b: string)
    ensures GetStringKey(a) == GetStringKey(b) <==> EqualsIgnoreCase(a, b)
  {
  }

  /** IsProcessorFile: a non-empty path whose extension is "." + ext,
      ignoring case. */
  predicate IsProcessorFile(path: string, ext: string) {
    path != [] && EqualsIgnoreCase(GetExtension(path), "." + ext)
  }

  /** A path that names a map file is never taken for a directory. */
  lemma ProcessorFileIsNotDirectory(path: string, ext: string)
    requires ext != []
    requires IsProcessorFile(path, ext)
    ensures !IsDirectory(path)
  {
    var e := GetExtension(path);
    assert |Lower(e)| == |Lower("." + ext)|;
    assert e != [];
    assert path[|path| - 1] == e[|e| - 1];
  }

  /** A created image path is a map file of its storage's extension. */
  lemma CreateImagePathIsProcessorFile(folder: string, name: string, ext: string)
    requires name != [] && NoPathBreak(name) && IsPlainExtension(ext)
    ensures IsProcessorFile(CreateImagePath(folder, name, ext), ext)
    ensures !IsDirectory(CreateImagePath(folder, name, ext))
  {
    CreateImagePathExtension(folder, name, ext);
    ProcessorFileIsNotDirectory(CreateImagePath(folder, name, ext), ext);
  }

  datatype PathError = EmptyPath

  /** IsWorkingDirectory(path, isEqual): an empty path is an error; otherwise
      both paths get an ending slash and are compared ignoring case, for
      equality or, by default, for `path` starting with the working
      directory. */
  function IsWorkingDirectory(path: string, workingDirectory: string, isEqual: bool): (r: Result<bool, PathError>)
    ensures path == [] <==> r.Err?
  {
    if path == [] then Err(EmptyPath)
    else
      var p, ip := AddEndingSlash(path), AddEndingSlash(workingDirectory);
      Ok(if isEqual then EqualsIgnoreCase(p, ip) else StartsWithIgnoreCase(p, ip))
  }

  /** An ending separator on either path changes nothing: both paths get
      one before they are compared. */
  lemma TrailingSlashIrrelevant(path: string, workingDirectory: string, isEqual: bool)
    ensures IsWorkingDirectory(AddEndingSlash(path), workingDirectory, isEqual) == IsWorkingDirectory(path, workingDirectory, isEqual)
    ensures IsWorkingDirectory(path, AddEndingSlash(workingDirectory), isEqual) == IsWorkingDirectory(path, workingDirectory, isEqual)
  {
    AddEndingSlashIdempotent(path);
    AddEndingSlashIdempotent(workingDirectory);
  }

  /** The working directory itself, and any path equal to it, lies in it. */
  lemma IsWorkingDirectoryEqualImpliesInside(path: string, workingDirectory: string)
    requires IsWorkingDirectory(path, workingDirectory, true) == Ok(true)
    ensures IsWorkingDirectory(path, workingDirectory, false) == Ok(true)
  {
    var p, ip := AddEndingSlash(path), AddEndingSlash(workingDirectory);
    assert |Lower(p)| == |Lower(ip)|;
    assert p[..|ip|] == p;
  }

  /** A file created in the working directory lies in it. */
  lemma FileInWorkingDirectory(workingDirectory: string, name: string, ext: string)
    requires workingDirectory != [] && IsSeparator(workingDirectory[|workingDirectory| - 1])
    requires name != [] && NoPathBreak(name)
    ensures IsWorkingDirectory(CreateImagePath(workingDirectory, name, ext), workingDirectory, false) == Ok(true)
  {
    var path := CreateImagePath(workingDirectory, name, ext);
    assert !IsPathRooted(name);
    assert path == workingDirectory + (name + "." + ext);
    var p := AddEndingSlash(path);
    assert p[..|workingDirectory|] == workingDirectory;
  }
}
