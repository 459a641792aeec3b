/**
  Printing a tree of objects and reading the text into another one.
*/
module SgmlReload {
  import opened SgmlModel
  import opened SgmlScan
  import opened SgmlOutcomes
  import opened SgmlPositions
  import opened SgmlPrint
  import opened SgmlForest
  import opened SgmlRoundTrip
  import opened SgmlParser

  /** What one object prints, another reads as the same tree, up to positions and to a text behind
      the last tag. */
  method PrintAndRead(source: Sgml, target: Sgml, wrap: string, tab: string, ghost fs: seq<Node>)
    requires source.Finished() && OnlyLastIsEnd(source.doc.info) && BareDoc(source.doc) == Finish(Layout(fs))
    requires WhiteFormat(Format(wrap, tab)) && GoodForest(fs) && target.Ready()
    modifies target, target.docTag
    ensures target.Finished() && BareDoc(target.doc) == Finish(Layout(Kept(fs)))
  {
    hide Export, Parse, Passes, WhiteFormat, GoodForest, BareDoc, Layout, Finish, OnlyLastIsEnd;
    ghost var f := Format(wrap, tab);
    SameSize(source.doc, fs);
    ExportBare(f, source.doc);
    ParseUndoesExport(f, fs);
    var text := source.ExportString(wrap, tab);
    ParseIsPasses(text, EMPTY_DOC, 0, -1, |text| + 1);
    target.String2Sgml(text, |text| + 1);
  }

  /** Reading any well-formed text leaves a finished tree with one virtual end tag, its last tag. */
  method ReadWellFormed(target: Sgml, s: string)
    requires target.Ready() && WellFormed(s)
    modifies target, target.docTag
    ensures target.Finished() && OnlyLastIsEnd(target.doc.info) && WellPlaced(s, target.doc)
    ensures ParseText(s) == Parsed(target.doc)
  {
    hide Passes, WellFormed, ParseText, OnlyLastIsEnd, WellPlaced;
    WellFormedIsParsed(s);
    TextIsWellPlaced(s);
    target.String2Sgml(s, |s| + 1);
  }
}
