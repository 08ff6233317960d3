/** The rules of the two kinds of store that do not touch the store's state:
    how a map file is read into a map (RecognizeProcessorStorage accepts a
    picture whose size lies in a range, ImageProcessorStorage one of an exact
    size), how a map's tag follows from its path, and which folder a map may
    be saved to. */
module StoreRules {
  import opened Wrappers
  import opened Text
  import opened Paths
  import opened Names
  import opened HashCreator
  import opened Processors

  /** A decoded picture: rows of pixel values, at least one pixel, all rows
      of one width. */
  predicate IsImage(g: seq<seq<int32>>) {
    |g| > 0 && |g[0]| > 0 && forall j :: 0 <= j < |g| ==> |g[j]| == |g[0]|
  }

  type Image = g: seq<seq<int32>> | IsImage(g) witness [[0]]

  function ImageWidth(g: Image): nat { |g[0]| }

  function ImageHeight(g: Image): nat { |g| }

  /** The two kinds of store and their size settings. */
  datatype Kind =
    | ImageStore(width: int, height: int)
    | RecognizeStore(minWidth: int, maxWidth: int, minHeight: int, maxHeight: int)

  datatype StoreError =
    | BlankPath                               // a blank path where a file is needed
    | EmptyPathArgument                       // IsWorkingDirectory of an empty path
    | NullArgument                            // a map that is required is missing
    | BlankExtension                          // a recognition store without an extension
    | Unreadable(path: string)                // the file cannot be opened or decoded
    | WidthOutOfRange(width: nat)             // recognition store: width outside [min, max]
    | HeightOutOfRange(height: nat)           // recognition store: height outside [min, max]
    | WidthMismatch(width: nat)               // image store: width differs from the store's
    | HeightMismatch(height: nat)             // image store: height differs from the store's
    | BlankTag                                // a map needs a tag
    | NameFailure(error: NameError)           // ParseName or IntGetUniqueProcessor failed
    | NotInWorkingDirectory(path: string)     // CheckImagePath: outside the working directory
    | WrongExtension(path: string)            // CheckImagePath: a file of another type
    | DuplicateKey(key: string)               // Dictionary.Add of a key that is present
    | AddingFailed(path: string, cause: StoreError) // GetAddingProcessor wraps its failures
    | Aggregate(errors: seq<StoreError>)      // AddProcessor: several files failed

  /** RecognizeProcessorStorage.GetProcessorTag: a blank path is an error;
      otherwise the file name without extension, de-masked by ParseName (an
      empty file name makes ParseName fail): the name itself, or the part of
      it before its last '!' when a ulong follows. */
  function RecognizeTag(path: string): (r: Result<string, StoreError>)
    ensures IsBlank(path) ==> r == Err(BlankPath)
    ensures !IsBlank(path) && GetFileNameWithoutExtension(path) == [] ==> r == Err(NameFailure(EmptyName))
    ensures !IsBlank(path) && GetFileNameWithoutExtension(path) != [] ==> r.Ok?
    ensures r.Ok? ==> r.value != [] && NoPathBreak(r.value)
    ensures r.Ok? ==> var name := GetFileNameWithoutExtension(path);
                      r.value == name ||
                      (|r.value| < |name| && name[..|r.value|] == r.value &&
                       name[|r.value|] == TagSeparatorChar &&
                       ParseULong(name[|r.value| + 1..]).Some?)
  {
    if IsBlank(path) then Err(BlankPath)
    else
      var name := GetFileNameWithoutExtension(path);
      if name == [] then Err(NameFailure(EmptyName))
      else
        var tag := Demask(name).1;
        assert NoPathBreak(tag) by {
          if tag != name {
            assert forall j :: 0 <= j < |tag| ==> tag[j] == name[j];
          }
        }
        Ok(tag)
  }

  /** ImageProcessorStorage.GetProcessorTag: a blank path is an error;
      otherwise the file name without extension, as it is. */
  function ImageTag(path: string): (r: Result<string, StoreError>)
    ensures IsBlank(path) <==> r.Err?
    ensures r.Ok? ==> NoPathBreak(r.value) && r.value == GetFileNameWithoutExtension(path)
  {
    if IsBlank(path) then Err(BlankPath) else Ok(GetFileNameWithoutExtension(path))
  }

  /** The name a map is saved under reads back, through the recognition
      store's GetProcessorTag, as the tag it was saved from: either the tag
      itself when ParseName finds no number in it, or the tag masked with a
      number. */
  lemma RecognizeTagRoundTrip(folder: string, tag: string, name: string, ext: string)
    requires tag != [] && NoPathBreak(tag) && IsPlainExtension(ext)
    requires (name == tag && Demask(tag).0.None?) ||
             (exists k: nat :: k < ULongLimit && name == Masked(tag, k))
    ensures RecognizeTag(CreateImagePath(folder, name, ext)) == Ok(tag)
  {
    var path := CreateImagePath(folder, name, ext);
    if name != tag || Demask(tag).0.Some? {
      var k: nat :| k < ULongLimit && name == Masked(tag, k);
      MaskedHasNoBreak(tag, k);
      DemaskMasked(tag, k);
    }
    CreateImagePathName(folder, name, ext);
    CreateImagePathIsProcessorFile(folder, name, ext);
    NotBlankWithDot(folder, name, ext);
  }

  lemma MaskedHasNoBreak(tag: string, k: nat)
    requires NoPathBreak(tag)
    ensures Masked(tag, k) != [] && NoPathBreak(Masked(tag, k))
  {
    var m := Masked(tag, k);
    forall j | 0 <= j < |m| ensures !IsPathBreak(m[j]) {
      if j > |tag| {
        assert m[j] == DecimalString(k)[j - |tag| - 1];
        assert IsDigit(m[j]);
      }
    }
  }

  /** A created image path holds a '.', so it is not blank. */
  lemma NotBlankWithDot(folder: string, name: string, ext: string)
    ensures !IsBlank(CreateImagePath(folder, name, ext))
  {
    var c := Combine(folder, name);
    assert CreateImagePath(folder, name, ext)[|c|] == '.';
  }

  /** The recognition store's ReadBitmap: a picture whose width is outside
      [minWidth, maxWidth] is refused, then one whose height is outside
      [minHeight, maxHeight]; both bounds are inclusive. */
  function RecognizeSizeCheck(minWidth: int, maxWidth: int, minHeight: int, maxHeight: int, g: Image): (r: Result<Image, StoreError>)
    ensures r.Ok? <==> minWidth <= ImageWidth(g) <= maxWidth && minHeight <= ImageHeight(g) <= maxHeight
    ensures r.Ok? ==> r.value == g
    ensures !(minWidth <= ImageWidth(g) <= maxWidth) ==> r == Err(WidthOutOfRange(ImageWidth(g)))
    ensures minWidth <= ImageWidth(g) <= maxWidth && !(minHeight <= ImageHeight(g) <= maxHeight) ==>
              r == Err(HeightOutOfRange(ImageHeight(g)))
  {
    if ImageWidth(g) < minWidth || ImageWidth(g) > maxWidth then Err(WidthOutOfRange(ImageWidth(g)))
    else if ImageHeight(g) < minHeight || ImageHeight(g) > maxHeight then Err(HeightOutOfRange(ImageHeight(g)))
    else Ok(g)
  }

  /** ImageRect.GetProcessor: the tag must not be blank, then the width and
      the height must be the store's. */
  function ImageSizeCheck(width: int, height: int, g: Image, tag: string): (r: Result<Image, StoreError>)
    ensures r.Ok? <==> !IsBlank(tag) && ImageWidth(g) == width && ImageHeight(g) == height
    ensures r.Ok? ==> r.value == g
    ensures IsBlank(tag) ==> r == Err(BlankTag)
    ensures !IsBlank(tag) && ImageWidth(g) != width ==> r == Err(WidthMismatch(ImageWidth(g)))
  {
    if IsBlank(tag) then Err(BlankTag)
    else if ImageWidth(g) != width then Err(WidthMismatch(ImageWidth(g)))
    else if ImageHeight(g) != height then Err(HeightMismatch(ImageHeight(g)))
    else Ok(g)
  }

  /** GetAddingProcessor: the picture read from `path` (None when it cannot
      be opened or decoded, which ReadBitmap also reports for an empty path)
      becomes the map `id`, or the failure is wrapped with the path. */
  function AddingProcessor(kind: Kind, path: string, image: Option<Image>, id: nat): (r: Result<Processor, StoreError>)
    ensures r.Err? ==> r.error.AddingFailed? && r.error.path == path
    ensures r.Ok? ==> r.value.id == id && r.value.Valid() && image.Some? && r.value.cells == image.value
    ensures path == [] || image.None? ==> r == Err(AddingFailed(path, Unreadable(path)))
    ensures kind.RecognizeStore? ==>
              (r.Ok? <==> path != [] && image.Some? &&
                          RecognizeSizeCheck(kind.minWidth, kind.maxWidth, kind.minHeight, kind.maxHeight, image.value).Ok? &&
                          RecognizeTag(path).Ok?)
    ensures kind.RecognizeStore? && r.Ok? ==> r.value.tag == RecognizeTag(path).value
    ensures kind.ImageStore? ==>
              (r.Ok? <==> path != [] && image.Some? && ImageTag(path).Ok? &&
                          ImageSizeCheck(kind.width, kind.height, image.value, ImageTag(path).value).Ok?)
    ensures kind.ImageStore? && r.Ok? ==> r.value.tag == ImageTag(path).value && !IsBlank(r.value.tag)
  {
    if path == [] || image.None? then Err(AddingFailed(path, Unreadable(path)))
    else if kind.RecognizeStore? then
      var size := RecognizeSizeCheck(kind.minWidth, kind.maxWidth, kind.minHeight, kind.maxHeight, image.value);
      var tag := RecognizeTag(path);
      if size.Err? then Err(AddingFailed(path, size.error))
      else if tag.Err? then Err(AddingFailed(path, tag.error))
      else Ok(Processor(id, image.value, tag.value))
    else
      var tag := ImageTag(path);
      if tag.Err? then Err(AddingFailed(path, tag.error))
      else
        var size := ImageSizeCheck(kind.width, kind.height, image.value, tag.value);
        if size.Err? then Err(AddingFailed(path, size.error))
        else Ok(Processor(id, image.value, tag.value))
  }

  /** CheckImagePath: an empty path stands for the working directory (not a
      file); any other path must lie in the working directory, and is either
      a directory or a file with the store's extension.  The flag says
      whether the path names a file to save to. */
  function CheckImagePath(path: string, workingDirectory: string, ext: string): (r: Result<(bool, string), StoreError>)
    ensures path == [] ==> r == Ok((false, workingDirectory))
    ensures path != [] && IsWorkingDirectory(path, workingDirectory, false) == Ok(false) ==>
              r == Err(NotInWorkingDirectory(path))
    ensures r.Ok? && path != [] ==> r.value.1 == path && IsWorkingDirectory(path, workingDirectory, false) == Ok(true)
    ensures r.Ok? && r.value.0 ==> IsProcessorFile(path, ext) && !IsDirectory(path)
    ensures r.Ok? && !r.value.0 && path != [] ==> IsDirectory(path)
    ensures r.Err? && IsWorkingDirectory(path, workingDirectory, false) == Ok(true) ==>
              r == Err(WrongExtension(path)) && !IsDirectory(path)
  {
    if path == [] then Ok((false, workingDirectory))
    else if IsWorkingDirectory(path, workingDirectory, false) != Ok(true) then Err(NotInWorkingDirectory(path))
    else if IsDirectory(path) then Ok((false, path))
    else if !EqualsIgnoreCase(GetExtension(path), "." + ext) then Err(WrongExtension(path))
    else Ok((true, path))
  }

  /** ReplaceInvalidPathChars: every character of the invalid set becomes
      '_'. */
  function ReplaceInvalidPathChars(path: string, invalid: set<char>): (r: string)
    ensures |r| == |path|
    ensures forall i :: 0 <= i < |path| ==> r[i] == if path[i] in invalid then '_' else path[i]
  {
    seq(|path|, i requires 0 <= i < |path| => if path[i] in invalid then '_' else path[i])
  }

  /** ReplaceInvalidPathChars leaves no invalid character, unless '_' is
      itself one. */
  lemma ReplacedIsClean(path: string, invalid: set<char>)
    requires '_' !in invalid
    ensures forall i :: 0 <= i < |path| ==> ReplaceInvalidPathChars(path, invalid)[i] !in invalid
  {
  }
}
