/** The map a store holds (the external DynamicParser.Processor): a grid of
    int cell values, read as cells[j][i] for column i and row j, and a tag.
    The source tells processors apart by reference; the model gives each one
    an identity `id` for that. */
module Processors {
  import opened HashCreator

  datatype Processor = Processor(id: nat, cells: seq<seq<int32>>, tag: string) {

    /** A non-empty rectangular grid. */
    predicate Valid() {
      |cells| > 0 && |cells[0]| > 0 &&
      forall j :: 0 <= j < |cells| ==> |cells[j]| == |cells[0]|
    }

    function Height(): nat { |cells| }

    function Width(): nat { if cells == [] then 0 else |cells[0]| }
  }
}
