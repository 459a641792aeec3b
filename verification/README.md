# A verified model of CuteTorrent's parsers, HTTP engine, file tree and views

CuteTorrent is a BitTorrent client.  Four of its parts do not depend on libraries whose behaviour is out of
sight, and this project models them in Dafny and proves what they are for.

**The SGML/HTML tree (`Sgml*.dfy`).**  A hand-written scanner feeds a stack machine of open tags; an end tag
that matches further up flattens every unclosed tag in between.  `TreeShape` has the trees as parent vectors in
token order, `SgmlModel` the stack machine, `SgmlSpans`, `SgmlUnclosed` and `SgmlOpenNames` its runs, `SgmlAttributes` and
`SgmlScan` the scanner, `SgmlOutcomes`, `SgmlEndless`, `SgmlReadings` and `SgmlExamples` how its passes and its loop end,
`SgmlPositions` the positions in the text.  `SgmlTag`, `SgmlTree` and `SgmlParser` are
the objects with their parent and child pointers and levels, changed in place and proved to represent the
document of the model.  `SgmlPrint`, `SgmlOpenTags`, `SgmlTagText`, `SgmlMarkup`, `SgmlForest`, `SgmlReparse`,
`SgmlRoundTrip`, `SgmlParsedForest` and `SgmlReload` are the printer and the proof that parser and printer undo each
other; `SgmlOutline` is the layout of its text.  `SgmlWritten`, `SgmlEquals` and `SgmlRawText` are about markup as people
write it: any quotes, any case, any white space, and the content of scripts.

**The HTTP engine (`Http*.dfy`, `Multipart.dfy`, `UrlDecode.dfy`).**  The request state machine with its byte
budget, fed by a socket in arbitrary fragments; responses with chunked or length framing over a socket that
may take any part of what it is given, with a decoder after RFC 7230 as their partner; multipart forms, percent
decoding, cookies, and the bounded pool of connection handlers.  `HttpRequestText` and `HttpWholeRequests` start from
the bytes of whole requests, `HttpOnTheWire` ends with the bytes of whole responses.

**The file tree (`FileTree.dfy`, `FileTreeSums.dfy`, `FileNames.dfy`, `FileViewModel.dfy`).**  Paths are added to a
mutable tree with parent links; folder sizes and priorities walk it; rows, parents and indices address it.  `FileNames`
says what the tree is for files given as lists of names.

**Views and tables (`FilteredViews.dfy`, `NameOrder.dfy`, `TorrentStorage.dfy`, `SearchItems.dfy`,
`RutorTable.dfy`).**  Lists with filtered views that are kept up to date step by step, their order by name, and a
breadth-first walk over a table that has to stay in step with its rows.

`QtText`, `QtMap` and `Numbers` hold the operations of Qt that the parts use, `Sequences` facts about lists.

Where an object updates its fields the model is a class, and each method's contract gives the whole new state
as a function of the old one; loops of the program are loops here.  What the program promises is then proved
about those functions.

## Where the code differs from what it is for

The model follows the code: for each of these it has the outcome the code has, and the theorem named says when the
property holds that was intended.

- A text behind the last tag of a document is dropped by the parser (QSgml.cpp:598-604): ParseUndoesExport, exactly.
- An equals sign in an attribute value that is not in double quotes is taken for that of a next attribute
  (QSgmlTag.cpp:83-107): OneAttributeExactly, exactly, for a single attribute.
- The slash at the end of a bare value in front of `>` makes the tag a standalone one and is lost (QSgml.cpp:350-353):
  ReadsSingleAsWritten.
- `getInnerText` answers nothing for a tag at position 0 (QSgml.cpp:647-662): InnerTextOfClosed,
  exactly.
- A comment that is never closed moves the cursor back to character 1 (QSgml.cpp:252-269), and a double quote that is
  never closed to the first `>` of the text (QSgml.cpp:49-52): BacksUpExactly, exactly, for a pass.  The loop may then
  never end: EndlessIsEveryReading, exactly, for every text; EndlessIsBounded says how many readings decide.
- The parser leaves without appending the virtual end tag when a doctype or a matching end tag has no `>`, and reads
  outside a string at other markup that is cut off: PassOutcome, exactly, for a pass; WellFormedIsParsed gives a condition
  on whole texts.  A tag that is cut off gets a negative length.
- `getPreviousElement` tests the address of a local variable and dereferences null on first children
  (QSgmlTag.cpp:228-241): GetPreviousElement, exactly.
- The secure flag of a cookie is printed but never read: a part without `=` loses its name (httpcookie.cpp:39-45):
  ParseUndoesPrint, exactly.
- A piece of a line is taken for a whole line, so that a first line that comes in two fragments aborts the request
  (httpconnectionhandler.cpp:153, httprequest.cpp:28): FirstLineMustNotComeApart; LinesMayComeApart for other cuts.
- The branches for query and form body are swapped, so that a body overwrites a query (httprequest.cpp:213-221):
  QueryAndBodyParameters, exactly.
- A multipart body of exactly the maximal size is admitted and then aborted (httprequest.cpp:116, 171):
  MultipartCompletes, exactly.
- With a boundary of dashes every delimiter looks like the last (httprequest.cpp:481): EverythingComesThrough,
  exactly.
- A file part without a line of data dereferences null (httprequest.cpp:474): NoFileExactly for a part and
  ParseIsItsSections for a body, exactly.
- A form name that ends in ` filename=` is taken for the key of the file name (httprequest.cpp:430), and the file name
  is read as `; filename=`: FileNameReads, exactly.
- A framing header set by the handler under another spelling, or a wrong length, breaks the framing:
  DecodeUndoesWrite, exactly.
- A path that continues or repeats an earlier one is shadowed in the file tree (FileViewModel.cpp:476-508): FileNodes,
  and FolderSizeIsSizeUnder for sizes, exactly.
- Appending a torrent looks at the torrent filter only and has no case for NOT_ACTIVE (TorrentStorrage.cpp:45-93):
  WhenAppendAgrees, exactly.
- `at` guards with the number of all torrents, not with the length of the view (TorrentStorrage.cpp:153): LookUpIsSafe,
  exactly.
- `sort` leaves the view in its old order (TorrentStorrage.cpp:207): ViewAfterSort, exactly when the names differ.
- Appending a search result shows it when its engine is *not* the chosen one (SearchItemsStorrage.cpp:85): Append,
  exactly.
- A link to a description in front of the download link dereferences null (RutorSearchProvider.cpp:137): BreaksExactly,
  exactly.  The address of a description gets two slashes, as the address of the site ends in one.

## Conventions

- Characters stand for QChars and bytes.  White space is the six ASCII characters of isspace, and case is
  folded for ASCII letters only.
- A hash or a multi-map is a list in its order of iteration or insertion; a theorem about such lists covers every
  order.
- `iEnd`, which the parser reads before it sets it (QSgml.cpp:576), starts at -1; `m_filterType`, which has no
  initial value, is a parameter.
- A single quote that is never closed makes the scanner read outside its text, and a double quote that it meets again
  after it has begun again at character 0 makes it search for ever; both outcomes are `OutOfBounds`.
- A socket that is read gives the bytes it has; a socket that is written takes some bytes, or none for a number of times
  that has no bound but is finite, or fails for good.
- The look-up of a file by its offset, which setFilePriority uses, is the number in the file's entry; files may share one.

## Model

| member | source | states |
|---|---|---|
| SgmlRoundTrip.ParseUndoesExport | CuteTorrent/src/SGML/QSgml.cpp:570-639 | for every forest of nodes and every white-space format, reading the printed text gives the same tree (kinds, names, attribute lists, values, order), with the virtual end tag last; the round trip holds if and only if no text stands behind the last tag |
| SgmlRoundTrip.Reformats | CuteTorrent/src/SGML/QSgml.cpp:71-211 | printing in one format, reading, and printing in another gives the text of the other format, with the attributes in the order in which they were printed |
| SgmlReload.PrintAndRead | CuteTorrent/src/SGML/QSgml.cpp:71-211 | what one tree of objects prints, another reads as the same tree, up to positions and a text behind the last tag |
| SgmlParsedForest.ParsedIsForest | CuteTorrent/src/SGML/QSgml.cpp:570-639 | the document that any ended run leaves is, but for its positions, the layout of a forest with the virtual end tag behind it if and only if no start tag was left open |
| SgmlParsedForest.ForestIsLayout | CuteTorrent/src/SGML/QSgml.cpp:570-639 | the forest is built by going over the tags once, and its layout has the parents and records of the document |
| SgmlParsedForest.PrintingIsStable | CuteTorrent/src/SGML/QSgml.cpp:71-211 | a document that was read, with all tags closed and a printable forest, is read back from what it prints, positions apart, if and only if no text stands behind its last tag, and then both print the same text in every format |
| SgmlRoundTrip.ReadsForest | CuteTorrent/src/SGML/QSgml.cpp:570-639 | the scanner, started in front of a printed forest at any place of a text, adds exactly that forest below its current tag and comes back to the same open tag |
| SgmlPrint.ExportPrintsForest | CuteTorrent/src/SGML/QSgml.cpp:71-211 | the loop over the tags with its stack of start tags and its level differences prints the text that recursion over the forest defines |
| SgmlOutline.OneTagPerLine | CuteTorrent/src/SGML/QSgml.cpp:71-211 | with wrapping on, a forest without texts is printed with one tag on each line, in document order, indented by the tab size for each tag around it |
| SgmlOutline.NothingBetween | CuteTorrent/src/SGML/QSgml.cpp:71-211 | with wrapping off, any forest is printed as its tags and texts one after the other |
| SgmlOpenTags.OpenTagsAreTheAncestors | CuteTorrent/src/SGML/QSgml.cpp:71-211 | in a document whose tags are all closed, the stack of start tags is at every step the chain of ancestors of the next tag with their levels, and empty at the end |
| SgmlOpenTags.LayoutIsClosed | CuteTorrent/src/SGML/QSgml.cpp:71-211 | every printed forest, of whatever nodes, is such a document |
| SgmlOpenTags.ParsedIsClosed | CuteTorrent/src/SGML/QSgml.cpp:570-639 | the document that any ended run leaves is such a document if and only if the virtual end tag hangs on the document tag, that is if no start tag was left open |
| SgmlOpenTags.PrinterAtIsTheLoop | CuteTorrent/src/SGML/QSgml.cpp:100-210 | the states of the previous row are those of the printing loop |
| SgmlParser.Sgml.ExportString | CuteTorrent/src/SGML/QSgml.cpp:71-211 | the loop over the tag objects, with its own stack and its inner loops for indentation, attributes and end tags, prints what the model prints for the document the objects represent |
| SgmlParser.Sgml.ExportOptimized | CuteTorrent/src/SGML/QSgml.cpp:71-98 | the line break and the tab are built from the two arguments |
| SgmlParser.CloseLevels | CuteTorrent/src/SGML/QSgml.cpp:176-207 | the inner loop closes as many open start tags as the walk went up, as far as there are any, without white space when a text came before |
| SgmlTagText.ParseTagUndoesPrint | CuteTorrent/src/SGML/QSgmlTag.cpp:53-129 | SetNameAttributes gives back name and attribute list of every printed tag, in order, for values without a quote |
| SgmlTagText.ParseEndTag | CuteTorrent/src/SGML/QSgmlTag.cpp:53-129 | the inside of an end tag is read as its name without attributes |
| SgmlWritten.ReadsAttributesAsWritten | CuteTorrent/src/SGML/QSgmlTag.cpp:53-129 | for a name and attributes in any case, with values in double quotes, in single quotes or bare and any white space in between: exactly these keys, in lower case, and these values, in order |
| SgmlWritten.LastValueCounts | CuteTorrent/src/SGML/QSgmlTag.cpp:53-129 | of several attributes with one key, in whatever case, the last value counts |
| SgmlEquals.OneAttributeExactly | CuteTorrent/src/SGML/QSgmlTag.cpp:80-128 | a single attribute in single quotes or bare is read as it is written if and only if there is no equals sign in its value |
| SgmlWritten.ReadsStartAsWritten | CuteTorrent/src/SGML/QSgml.cpp:341-372 | a start tag written like that, anywhere in a text, is read as one start tag with that name and these attributes, with > and / inside its quoted values |
| SgmlWritten.ReadsSingleAsWritten | CuteTorrent/src/SGML/QSgml.cpp:341-372 | with a slash in front of its bracket it is a standalone tag; a bare value does not keep the slash |
| SgmlMarkup.ReadsStartTag | CuteTorrent/src/SGML/QSgml.cpp:341-372 | a printed start tag, with > and / inside its quoted values, is read as one start tag with its name and attributes |
| SgmlMarkup.ReadsSingle | CuteTorrent/src/SGML/QSgml.cpp:341-372 | the same for a standalone tag |
| SgmlMarkup.ReadsEndTag | CuteTorrent/src/SGML/QSgml.cpp:289-338 | a printed end tag closes the innermost open tag of that name |
| SgmlMarkup.ReadsComment | CuteTorrent/src/SGML/QSgml.cpp:252-269 | a printed comment is read as one comment with its text |
| SgmlMarkup.ReadsDoctype | CuteTorrent/src/SGML/QSgml.cpp:272-286 | a printed doctype is read as one doctype with its text |
| SgmlRawText.ReadsRawContent | CuteTorrent/src/SGML/QSgml.cpp:583-610 | whatever stands in script or style up to its end tag, tags and comments included, is one text, and the end tag closes it in the same pass, unless the text ends in < |
| SgmlRawText.ReadsTextAsWritten | CuteTorrent/src/SGML/QSgml.cpp:230-249 | a text up to the next < becomes one tag without the white space around it, at its place; white space alone becomes nothing |
| SgmlRawText.ReadsCommentAsWritten | CuteTorrent/src/SGML/QSgml.cpp:252-269 | any comment up to the first --> becomes one tag with its text without the white space around it |
| SgmlRawText.ReadsDoctypeAsWritten | CuteTorrent/src/SGML/QSgml.cpp:272-286 | the same for a declaration up to its first > outside quotes |
| SgmlRawText.DeclarationIsCutOff | CuteTorrent/src/SGML/QSgml.cpp:272-286 | without such a > the rest of the text is the declaration, its length is negative, and nothing more is read |
| SgmlModel.DemoteToIsDemoted | CuteTorrent/src/SGML/QSgml.cpp:289-338 | demoting the unclosed tags one at a time gives every tag below one of them the matched tag as its parent, makes exactly the unclosed tags standalone, and changes nothing else |
| SgmlUnclosed.UnclosedIsStandalone | CuteTorrent/src/SGML/QSgml.cpp:289-338 | over any run: a tag still open when an outer end tag comes gives the same document as if it had been written standalone |
| SgmlOpenNames.MatchUpIsInnermost | CuteTorrent/src/SGML/QSgml.cpp:300-306 | the search for the start tag finds the innermost open tag of that name, and the document tag if and only if no open tag has it |
| SgmlOpenNames.EndTagPops | CuteTorrent/src/SGML/QSgml.cpp:289-338 | an end tag is matched if and only if its name is open, and then the names of the open tags are those in front of the innermost one of that name |
| TreeShape.SpineIsLastChild | CuteTorrent/src/SGML/QSgml.cpp:214-227 | an open tag is the last child of its parent |
| TreeShape.LiftPreorder | CuteTorrent/src/SGML/QSgml.cpp:214-227 | moving the children of the innermost open tag to its parent keeps token order as the preorder of the tree |
| TreeShape.LiftKids | CuteTorrent/src/SGML/QSgml.cpp:214-227 | the moved children come behind the children of the destination, in their order |
| SgmlSpans.RunIsLaminar | CuteTorrent/src/SGML/QSgml.cpp:230-372 | after any token sequence closed tags enclose their descendants, other tags neither overlap nor change order, positions increase strictly, and only the path to the innermost open tag is still open |
| SgmlSpans.DocumentIsLaminar | CuteTorrent/src/SGML/QSgml.cpp:570-639 | so it is of every document read from the start, whose tokens come in order |
| SgmlPositions.TextIsWellPlaced | CuteTorrent/src/SGML/QSgml.cpp:570-639 | for every text with closed comments and double quotes that is parsed, the document has laminar spans, and the positions of every tag are those of its own markup in the text |
| SgmlPositions.WellFormedIsWellPlaced | CuteTorrent/src/SGML/QSgml.cpp:570-639 | every text in which each < begins whole markup is parsed, and its document has laminar spans that lie on their markup |
| SgmlPositions.InnerTextOfClosed | CuteTorrent/src/SGML/QSgml.cpp:647-662 | getInnerText of a closed tag is the text between its tags if and only if the tag does not stand at position 0 or encloses nothing |
| SgmlPositions.InnerTextOfOpen | CuteTorrent/src/SGML/QSgml.cpp:647-662 | getInnerText of a tag that was never closed is everything behind its start tag |
| SgmlPositions.InnerTextHoldsDescendants | CuteTorrent/src/SGML/QSgml.cpp:647-662 | a tag lies below a closed tag if and only if its markup lies in the inner text of that tag |
| SgmlScan.ClosedMarkupTerminates | CuteTorrent/src/SGML/QSgml.cpp:570-639 | parsing ends on every text whose comments and double quotes are closed, whatever else is in it |
| SgmlScan.StepAdvances | CuteTorrent/src/SGML/QSgml.cpp:585-637 | one pass leaves the cursor further on, unless the markup it finds is a comment that is never closed, which sends it to character 1, or has a double quote that is never closed, which sends it to the first > of the text |
| SgmlScan.BacksUpExactly | CuteTorrent/src/SGML/QSgml.cpp:585-637 | from character 1 on, a pass that goes on fails to move forward if and only if the markup is such a comment, or has such a quote and the first > of the text is not further on |
| SgmlOutcomes.PassOutcome | CuteTorrent/src/SGML/QSgml.cpp:570-639 | one pass reads outside a string or searches for ever, is cut off without a virtual end tag, or ends the document, exactly when the text at the < it finds says so: unreadable markup; a doctype without >, or an end tag without > whose name is open; an end tag whose name is not open |
| SgmlOutcomes.PassIsMove | CuteTorrent/src/SGML/QSgml.cpp:570-639 | what a pass does depends on the text, the cursor and the names of the open tags alone |
| SgmlOutcomes.WellFormedIsParsed | CuteTorrent/src/SGML/QSgml.cpp:570-639 | a text in which each < begins whole markup (comment closed, tag or doctype with its >, name and attributes readable) is read to the end, with the virtual end tag once and last |
| SgmlReload.ReadWellFormed | CuteTorrent/src/SGML/QSgml.cpp:570-639 | for every such text the objects end as a finished tree with one virtual end tag, its last tag |
| SgmlExamples.DoctypeCutOff | CuteTorrent/src/SGML/QSgml.cpp:272-286 | a text that leaves no virtual end tag: a doctype without > |
| SgmlExamples.EndTagCutOff | CuteTorrent/src/SGML/QSgml.cpp:289-338 | a text that leaves no virtual end tag: a matching end tag without > |
| SgmlExamples.StartTagCutOff | CuteTorrent/src/SGML/QSgml.cpp:341-372 | a text that makes the program read outside a string: a start tag without > |
| SgmlEndless.NeverEndsExactly | CuteTorrent/src/SGML/QSgml.cpp:570-639 | for texts that do not begin with markup and whose double quotes are closed the first reading decides |
| SgmlReadings.EndlessIsEveryReading | CuteTorrent/src/SGML/QSgml.cpp:570-639 | for every text: no number of passes ends the loop if and only if every reading of the text, each below the names that the one before left open, goes back once more |
| SgmlReadings.EndlessIsBounded | CuteTorrent/src/SGML/QSgml.cpp:570-639 | for every text with closed double quotes in which no < stands directly in front of the end of a script: it is read for ever if and only if the first reading goes back, and then as many more as there are names left open by it, and one |
| SgmlReadings.ReadingHasEffect | CuteTorrent/src/SGML/QSgml.cpp:570-639 | a reading from character 1 does the same below any ordinary names: it closes down to the innermost tag of each end tag it has no start tag for, one after the other, and leaves its own names open |
| SgmlEndless.EndlessText | CuteTorrent/src/SGML/QSgml.cpp:252-269 | so it is for every text whose first markup is a comment that is never closed, unless it stands at character 0 |
| SgmlEndless.MoveBelow | CuteTorrent/src/SGML/QSgml.cpp:570-639 | a pass that goes on does the same below further open tags, whose names stay in front |
| SgmlEndless.OneEndlessText | CuteTorrent/src/SGML/QSgml.cpp:252-269 | such a text of five characters |
| SgmlExamples.GoesBackAndEnds | CuteTorrent/src/SGML/QSgml.cpp:252-269 | going back does not mean never ending: a text that is read from character 1 again, and then ends |
| SgmlExamples.EndlessBehindATag | CuteTorrent/src/SGML/QSgml.cpp:570-639 | a text that begins with markup and is read for ever, although its second reading needs a tag that the first has left open |
| SgmlScan.EndTagComesLast | CuteTorrent/src/SGML/QSgml.cpp:570-639 | in every run that ends, after whatever number of passes, the virtual end tag is appended once and comes last, and not at all when the loop is cut off |
| SgmlScan.PassesKeep | CuteTorrent/src/SGML/QSgml.cpp:570-639 | a property that adding a leaf, opening a tag and reading an end tag keep holds of the document of every run that ends, up to the virtual end tag |
| SgmlOutcomes.FindEndIsFirst | CuteTorrent/src/SGML/QSgml.cpp:34-56 | the position found is that of the first > outside quotes, by a machine that goes over the characters one by one; without one, the answer tells whether a quote is open at the end of the text |
| SgmlParser.FindEndFrom | CuteTorrent/src/SGML/QSgml.cpp:34-56 | the loop with its jumps over quotes, which begins again at character 0 behind a double quote that is never closed, computes the search of the model whenever it ends |
| SgmlParser.RunHasOneEnd | CuteTorrent/src/SGML/QSgml.cpp:570-639 | in the document of a run that ends, exactly the last tag is a virtual end tag, or none when it was cut off |
| SgmlTags.SgmlTag.SetNameAttributes | CuteTorrent/src/SGML/QSgmlTag.cpp:53-129 | the loop that rewrites its locals and the attribute table computes name and attributes of the model |
| SgmlTags.SgmlTag.ResetLevel | CuteTorrent/src/SGML/QSgmlTag.cpp:254-264 | the recursion gives exactly the tags below this one, in the child lists, the level that the parent pointers say, even while the two disagree about tags being moved |
| SgmlTags.SgmlTag.GetNextSibling | CuteTorrent/src/SGML/QSgmlTag.cpp:152-172 | the tag behind this one in the child list, or none |
| SgmlTags.SgmlTag.GetPreviousSibling | CuteTorrent/src/SGML/QSgmlTag.cpp:175-195 | the tag before this one in the child list of its parent pointer, or none; the virtual end tag, whose pointer may be stale, counts as behind the last |
| SgmlTags.SgmlTag.GetNextElement | CuteTorrent/src/SGML/QSgmlTag.cpp:198-221 | from every tag but the last, the walk comes to the next tag in document order and never runs off the root |
| SgmlTags.SgmlTag.GetPreviousElement | CuteTorrent/src/SGML/QSgmlTag.cpp:224-244 | the exact outcome: the previous tag in document order, a null dereference for a first child, and the end tag itself when its parent pointer is stale |
| SgmlTree.MoveChildren | CuteTorrent/src/SGML/QSgml.cpp:214-227 | child lists, parent pointers and all levels below both tags are those of the flattened tree, although levels are repaired before the child is appended |
| SgmlTree.Reparent | CuteTorrent/src/SGML/QSgml.cpp:219-224 | levels are right after one child has changed its parent, reached through the old parent |
| SgmlParser.Sgml.HandleCdata | CuteTorrent/src/SGML/QSgml.cpp:230-249 | the objects change as the document of the model |
| SgmlParser.Sgml.HandleComment | CuteTorrent/src/SGML/QSgml.cpp:252-269 | the objects change as the document of the model |
| SgmlParser.Sgml.HandleDoctype | CuteTorrent/src/SGML/QSgml.cpp:272-286 | the objects change as the document of the model |
| SgmlParser.Sgml.HandleEndTag | CuteTorrent/src/SGML/QSgml.cpp:289-338 | the objects change as the document of the model: closed, flattened, or ended |
| SgmlParser.Sgml.HandleStartTag | CuteTorrent/src/SGML/QSgml.cpp:341-372 | the objects change as the document of the model |
| SgmlParser.Sgml.String2Sgml | CuteTorrent/src/SGML/QSgml.cpp:570-639 | for every text on which the loop ends after some number of passes without reading outside a string, going back included, the objects represent exactly the document of the model: every pointer, level, record and position |
| SgmlParser.Sgml.GetElementsByName | CuteTorrent/src/SGML/QSgml.cpp:375-389 | the tags of that name, in document order |
| SgmlParser.Sgml.GetElementsByAttribute | CuteTorrent/src/SGML/QSgml.cpp:443-460 | the tags with that attribute value, in document order |
| SgmlParser.MatchesExactly | CuteTorrent/src/SGML/QSgml.cpp:375-460 | the answer lists every matching tag exactly once and in document order |
| HttpResponses.HttpResponse.SetHeader | CuteTorrent/src/http/httpresponse.cpp:17-21 | the header gets the value and the others stay |
| HttpResponses.HttpResponse.SetCookie | CuteTorrent/src/http/httpresponse.cpp:156-164 | a cookie is stored under its name unless it has none |
| HttpFraming.DecodeUndoesWrite | CuteTorrent/src/http/httpresponse.cpp:40-147 | for every response whose head has no empty line inside, and every sequence of writes, a decoder after sections 3.3.3 and 4.1 of RFC 7230 recovers exactly the concatenated data with nothing left over, if and only if the head announces the framing the program uses |
| HttpFraming.DefaultFramingIsConsistent | CuteTorrent/src/http/httpresponse.cpp:97-114 | a handler in whose head a decoder sees no framing field, in whatever case, always gets its data through, chunked, by length, or by closing |
| HttpFraming.ChunksRead | CuteTorrent/src/http/httpresponse.cpp:116-139 | reading the chunks gives the concatenated data: empty data does not end the body early |
| HttpFraming.HeadGoesFirst | CuteTorrent/src/http/httpresponse.cpp:93-114 | the head goes out once, in front of the body, for every sequence of parts |
| HttpFraming.HeadReads | CuteTorrent/src/http/httpresponse.cpp:40-68 | whatever is in the head besides an empty line, the decoder reads its first line as the status line and the others as fields, and the body behind it |
| HttpOnTheWire.ResponseSaysItsStatus | CuteTorrent/src/http/httpresponse.cpp:40-49 | for every status of three digits and every reason without a line break, the first line on the wire carries exactly them, whatever is written afterwards |
| HttpOnTheWire.ResponseCarriesItsHeaders | CuteTorrent/src/http/httpresponse.cpp:50-127 | the fields on the wire are the headers that were set, with their values, one header for the framing, and a Set-Cookie field for every cookie that is read back as that cookie; behind them comes the data, in chunks or as it is |
| HttpOnTheWire.ClosesExactly | CuteTorrent/src/http/httpresponse.cpp:97-146 | the connection is closed behind the last part if and only if no length and no chunks are announced, and the headers ask for it or name another coding |
| HttpFraming.FieldsRead | CuteTorrent/src/http/httpresponse.cpp:50-66 | every header and cookie is read back line by line, up to the empty line; a value with line breaks becomes several fields |
| HttpFraming.ChunkedIsEncoded | CuteTorrent/src/http/httpresponse.cpp:116-127 | a body that the program chunks is never announced by length |
| HttpResponses.HttpResponse.WriteToSocket | CuteTorrent/src/http/httpresponse.cpp:70-91 | however the socket takes the bytes, piece by piece or nothing for a while, all of them go out in order, or a beginning of them when it fails |
| HttpResponses.HttpResponse.WriteHeaders | CuteTorrent/src/http/httpresponse.cpp:40-68 | the head of the model is given to the socket |
| HttpResponses.HttpResponse.Write | CuteTorrent/src/http/httpresponse.cpp:93-147 | state, bytes and end of connection after a write are those of the model; what went out is always a beginning of what was meant |
| HttpResponses.Respond | CuteTorrent/src/http/httpconnectionhandler.cpp:180-203 | over any run of writes the response is ended exactly once, and all bytes are those of the model |
| HttpResponses.RespondAndDecode | CuteTorrent/src/http/httpconnectionhandler.cpp:180-203 | when nothing failed, the bytes that went out decode to the data written, if and only if head and framing agree |
| HttpResponses.SameData | CuteTorrent/src/http/httpconnectionhandler.cpp:199-203 | the ending empty write adds no data |
| QtMaps.InsertSorted | CuteTorrent/src/http/httpresponse.cpp:17-21 | the header table stays sorted, and only the inserted key changes |
| QtMaps.LessIsFirstDifference | CuteTorrent/src/http/httpresponse.cpp:50-56 | the order of the table is decided by the first character in which two names differ |
| HttpRequests.StepKeepsBudget | CuteTorrent/src/http/httprequest.cpp:280-311 | one call of readFromSocket: the budget is kept, the status moves forward only, and bytes are taken unless the request ends |
| HttpRequests.StepTakes | CuteTorrent/src/http/httprequest.cpp:22-56 | in the states that read lines at least one byte is asked for and taken, so a line never reads without limit |
| HttpRequests.RunKeepsBudget | CuteTorrent/src/http/httpconnectionhandler.cpp:146-164 | over all fragments: the budget holds in every state that is not aborted, the status moves forward only, and no bytes are left over before the end |
| HttpRequests.NewRequestKeepsBudget | CuteTorrent/src/http/httpconnectionhandler.cpp:146-164 | so it is of every new request, whatever its two limits |
| HttpRequests.DriveKeepsBudget | CuteTorrent/src/http/httpconnectionhandler.cpp:153-164 | the same for the driving loop, which ends |
| HttpRequests.AdmissionCheck | CuteTorrent/src/http/httprequest.cpp:98-126 | an ordinary body of positive size is admitted if and only if it fits the budget, and aborted otherwise |
| HttpRequests.BodyIgnoresFragments | CuteTorrent/src/http/httprequest.cpp:130-147 | an admitted body never aborts, and at the end consists of exactly the announced number of bytes of the stream, however it was cut; the rest stays in the socket |
| HttpRequests.FileIgnoresFragments | CuteTorrent/src/http/httprequest.cpp:149-191 | a multipart body is parsed when its bytes have come and are fewer than the maximum, and aborted when the maximum is reached, however the stream was cut |
| HttpRequests.MultipartCompletes | CuteTorrent/src/http/httprequest.cpp:149-191 | a multipart body completes if and only if all bytes have come, they are fewer than the maximum, no file part in it ends directly behind its header, and the data of its form fields fit the budget |
| HttpRequests.MaximalMultipartNeverCompletes | CuteTorrent/src/http/httprequest.cpp:116-126 | a multipart body of exactly the maximal size is admitted but never completes |
| HttpRequests.QueryAndBodyParameters | CuteTorrent/src/http/httprequest.cpp:194-243 | the parameters of query and form body both come through if and only if there is no form body or the query holds none |
| HttpRequests.HttpRequest.ReadRequest | CuteTorrent/src/http/httprequest.cpp:22-47 | state and socket after the request line are those of the model |
| HttpRequests.HttpRequest.ReadHeader | CuteTorrent/src/http/httprequest.cpp:49-128 | state and socket after a header line are those of the model |
| HttpRequests.HttpRequest.ReadBody | CuteTorrent/src/http/httprequest.cpp:130-192 | state and socket after a piece of the body are those of the model |
| HttpRequests.HttpRequest.DecodeRequestParams | CuteTorrent/src/http/httprequest.cpp:194-243 | the parameters are those of the model |
| HttpRequests.HttpRequest.ReadFromSocket | CuteTorrent/src/http/httprequest.cpp:280-311 | one call is one step of the model, with parameters and cookies taken out when the request is complete |
| HttpRequests.CookiesComeThrough | CuteTorrent/src/http/httprequest.cpp:245-278 | the cookies of any number of cookie headers are those of the request afterwards, the last of each name in the order of the loop, with the others it had, and these headers are gone |
| HttpRequests.OtherHeaders | CuteTorrent/src/http/httprequest.cpp:277 | taking the cookie headers out leaves every other header with its values |
| HttpRequests.CollectData | CuteTorrent/src/http/httpconnectionhandler.cpp:153-164 | the loop ends and is the loop of the model |
| HttpRequestText.FirstLine | CuteTorrent/src/http/httprequest.cpp:22-47 | a first line goes on to the headers if and only if it is made of three words and the last one contains HTTP, and then these are verb, path and version; an empty line is skipped |
| HttpRequestText.DriveHeaders | CuteTorrent/src/http/httprequest.cpp:49-78 | any number of headers, with any white space behind the colon and any number of continuation lines, is read line by line |
| HttpRequestText.ValueIsLast | CuteTorrent/src/http/httprequest.cpp:338-341 | a look-up gives the value of the last header of that name, with its continuation lines |
| HttpWholeRequests.RequestWithoutBody | CuteTorrent/src/http/httprequest.cpp:22-128 | on the bytes: a head of any words and headers that fits the budget, without a length or with length 0, makes a complete request with the verb, path, version and header values of the text; what comes behind it stays in the socket |
| HttpWholeRequests.RequestWithBody | CuteTorrent/src/http/httprequest.cpp:22-147 | with a printed length n the request is complete with exactly the next n bytes, however they come in, if and only if they come and head and body fit the budget; otherwise it waits or is aborted |
| HttpWholeRequests.RequestWithForm | CuteTorrent/src/http/httprequest.cpp:22-192 | with a boundary in its type the body is divided at the text behind the first "boundary="; the exact condition for completion, over the bytes |
| HttpWholeRequests.BrokenRequest | CuteTorrent/src/http/httprequest.cpp:22-47 | any other first line aborts the request at once |
| HttpWholeRequests.QueryComesThrough | CuteTorrent/src/http/httprequest.cpp:194-243 | parameters printed with any encoding of their names and values come back as they were, in order, and the path is what stands in front of them |
| HttpWholeRequests.FormComesThrough | CuteTorrent/src/http/httprequest.cpp:194-243 | the same for the body of a form |
| HttpWholeRequests.OtherBodyKeepsQuery | CuteTorrent/src/http/httprequest.cpp:209-223 | a body of another type has no parameters, and those of the query stay |
| HttpWholeRequests.CookiesOfTheText | CuteTorrent/src/http/httprequest.cpp:245-278 | the cookies are those of the cookie headers in the text; the first header that has a name counts, and in it the last cookie of that name |
| HttpWholeRequests.LinesMayComeApart | CuteTorrent/src/http/httpconnectionhandler.cpp:146-164 | a cut between two fragments at the end of a line of the head changes nothing |
| HttpWholeRequests.FirstLineMustNotComeApart | CuteTorrent/src/http/httpconnectionhandler.cpp:153-164 | a fragment that ends within the first line aborts the request, unless the piece is such a line itself |
| HttpWholeRequests.StrayLine | CuteTorrent/src/http/httprequest.cpp:68-78 | a line without a colon in front of all headers only counts for the budget |
| Multipart.ParseUndoesLayout | CuteTorrent/src/http/httprequest.cpp:401-523 | for form fields and file parts of any content, parsing the layout of section 5.1.1 of RFC 2046 never crashes and gives exactly the names, values, file names and uploaded contents, in order, with only the line break in front of each delimiter taken off; of all parts, or only of the first when the boundary is made of dashes |
| Multipart.EverythingComesThrough | CuteTorrent/src/http/httprequest.cpp:401-523 | what was sent comes through if and only if there is at most one part or the boundary has a character that is not a dash, and no file belongs to a name that ends like the key of a file name, save a file whose own name is `; filename=` |
| Multipart.NoFileExactly | CuteTorrent/src/http/httprequest.cpp:466-479 | collecting a part dereferences null if and only if it is a file part, no data has come for it, and the next line is a delimiter |
| Multipart.ParseIsItsSections | CuteTorrent/src/http/httprequest.cpp:401-523 | for every body: parsing dereferences null if and only if some file part has no line of data; otherwise the form holds what its parts add, and the data of its fields count for the budget |
| Multipart.PartsAreSections | CuteTorrent/src/http/httprequest.cpp:401-523 | the loops read the body part by part, as it is divided by its delimiters |
| Multipart.CutBodyCrashes | CuteTorrent/src/http/httprequest.cpp:466-479 | a form that ends directly behind the header of a file makes the program dereference null, whatever the file |
| Multipart.ABodyCrashes | CuteTorrent/src/http/httprequest.cpp:466-479 | such a body |
| Multipart.FileNameReads | CuteTorrent/src/http/httprequest.cpp:417-439 | the file name is read as it is, unless the name in front of it ends like the key; then `; filename=` is read, which is right for a file of that name only |
| Multipart.DelimiterIsLast | CuteTorrent/src/http/httprequest.cpp:481-484 | a delimiter is taken for the last one if and only if the boundary consists of dashes |
| Multipart.FormTextLines | CuteTorrent/src/http/httprequest.cpp:415-457 | the lines that the loops read off a laid-out form are its delimiters, headers, empty lines and the lines of its contents, in pieces when they are longer than the limit |
| Multipart.DispositionReads | CuteTorrent/src/http/httprequest.cpp:417-439 | the header of a part gives its name and its file name, whatever the name contains besides quotes and line breaks |
| Multipart.ParseMultiPartFile | CuteTorrent/src/http/httprequest.cpp:401-523 | the three nested loops compute the parse of the model, and stop where the program dereferences null |
| Multipart.HeadLoop | CuteTorrent/src/http/httprequest.cpp:413-448 | the loop over the headers of a part |
| Multipart.PartLoop | CuteTorrent/src/http/httprequest.cpp:455-513 | the loop over the lines of a part |
| UrlDecoding.Decode | CuteTorrent/src/http/httprequest.cpp:378-398 | the loop that edits the buffer in place ends and equals one pass from left to right |
| UrlDecoding.UrlDecode | CuteTorrent/src/http/httprequest.cpp:378-398 | decoding never makes the text longer |
| UrlDecoding.DecodeUndoesEncoding | CuteTorrent/src/http/httprequest.cpp:378-398 | decoding undoes every encoding: a % that an escape stands for is not decoded again |
| UrlDecoding.EncodesExactlyItsDecoding | CuteTorrent/src/http/httprequest.cpp:378-398 | a text is an encoding of what it decodes to if and only if its escapes are well formed |
| UrlDecoding.DecodeUndoesPercentEncode | CuteTorrent/src/http/httprequest.cpp:378-398 | decoding undoes the percent-encoding of section 2.1 of RFC 3986 for every byte string |
| HttpCookies.ParseUndoesPrint | CuteTorrent/src/http/httpcookie.cpp:27-130 | parsing a printed cookie gives it back without its secure flag; the round trip holds if and only if the flag is not set |
| HttpCookies.SplitUndoesJoin | CuteTorrent/src/http/httpcookie.cpp:207-260 | splitting undoes joining with "; " for all plain parts |
| HttpCookies.SplitReadsQuotes | CuteTorrent/src/http/httpcookie.cpp:207-260 | for parts made of any stretches in and outside quotes: a semicolon in quotes does not separate, the quotes are dropped, and parts of white space are left out |
| HttpCookies.ReadsOptions | CuteTorrent/src/http/httpcookie.cpp:27-90 | all options of a printed cookie are read back, and none is lost but Secure |
| HttpCookies.SecureIsIgnored | CuteTorrent/src/http/httpcookie.cpp:37-50 | the part Secure has no =, its name is read as empty, and it changes nothing |
| HttpCookies.SecureIsPrinted | CuteTorrent/src/http/httpcookie.cpp:92-130 | the printed cookie has the part Secure if and only if the flag is set |
| HttpCookies.SplitCSV | CuteTorrent/src/http/httpcookie.cpp:207-260 | the loop with its flag and buffer computes the split of the model |
| HttpCookies.HttpCookie.Parse | CuteTorrent/src/http/httpcookie.cpp:27-90 | the parsing constructor sets the fields of the model |
| HttpCookies.HttpCookie.ToByteArray | CuteTorrent/src/http/httpcookie.cpp:92-130 | the buffer is the printed cookie of the model |
| Numbers.ToIntUndoesNumber | CuteTorrent/src/http/httpcookie.cpp:110-114 | every number of 32 bits is read back as printed, and a larger one as 0 |
| Numbers.ValueOfDigits | CuteTorrent/src/http/httpresponse.cpp:118-127 | every size is read back from its digits, decimal or hexadecimal |
| Numbers.DigitsAreUsual | CuteTorrent/src/http/httpresponse.cpp:118-127 | sizes have no leading zeros and small hexadecimal digits |
| Numbers.NoNumberIsZero | CuteTorrent/src/http/httprequest.cpp:98-103 | a text with anything else in it than digits, signs and white space counts as 0 |
| HttpPool.RunIsServer | CuteTorrent/src/http/httpconnectionhandlerpool.cpp:27-82 | over all interleavings of connections, ends and clean-ups, with settings that may change at every step, the pool serves exactly the connections that a server counting handlers has open: none lost by clean-up, none served twice |
| HttpPool.PoolIsBoundedServer | CuteTorrent/src/http/httpconnectionhandlerpool.cpp:27-82 | while maxThreads stays what it is, that is a server that admits a connection if and only if fewer than maxThreads are open, and there are never more than maxThreads handlers |
| HttpPool.AcquireServesOneMore | CuteTorrent/src/http/httpconnectionhandlerpool.cpp:27-58 | for every pool and every setting: a connection is refused if and only if all handlers are busy and there are maxThreads or more; otherwise it is added to those served, by a new handler only when all are busy |
| HttpPool.TakesFirstIdle | CuteTorrent/src/http/httpconnectionhandlerpool.cpp:27-58 | the first idle handler gets the connection, and a new one is put behind the others |
| HttpPool.CleanupKeepsServed | CuteTorrent/src/http/httpconnectionhandlerpool.cpp:62-82 | clean-up disturbs no connection and takes one idle handler when there are too many |
| HttpPool.RemovesFirstBeyond | CuteTorrent/src/http/httpconnectionhandlerpool.cpp:62-82 | the handler that goes is the first with minThreads idle ones in front of it |
| HttpPool.CleanupConverges | CuteTorrent/src/http/httpconnectionhandlerpool.cpp:62-82 | without traffic the idle handlers come down to minThreads one at a time, and no further |
| HttpPool.ReleaseEndsOne | CuteTorrent/src/http/httpconnectionhandler.cpp:134-139 | the end of a connection frees its handler only |
| HttpPool.HttpConnectionHandlerPool.ConnectionEnded | CuteTorrent/src/http/httpconnectionhandler.cpp:134-139 | the objects change as the model: that handler becomes idle and the others stay |
| HttpPool.HttpConnectionHandlerPool.GetConnectionHandler | CuteTorrent/src/http/httpconnectionhandlerpool.cpp:27-58 | the objects change as the model; a handler that is given out was idle or is new |
| HttpPool.HttpConnectionHandlerPool.Cleanup | CuteTorrent/src/http/httpconnectionhandlerpool.cpp:62-82 | the objects change as the model; no busy handler is removed |
| FileTree.BuildIsThePaths | CuteTorrent/src/FileViewModel.cpp:365-509 | for every list of paths: siblings have different names, the nodes are exactly the prefixes of the paths, and the first path that starts with a prefix decides what its node is |
| FileTree.AddsPrefixes | CuteTorrent/src/FileViewModel.cpp:442-509 | adding a path adds a node for exactly the missing prefixes, the last as a file and the others as folders |
| FileTree.FileNodes | CuteTorrent/src/FileViewModel.cpp:442-509 | a path has the file node of a file if and only if the first path that starts with it is that file's own |
| FileNames.FilesAreWhereTheirNamesSay | CuteTorrent/src/FileViewModel.cpp:442-509 | for files given as lists of names with slashes in between: going down from the root along some names one comes to a file if and only if the first file whose names begin with them has just these, and it is that file |
| FileNames.FoldersAreOnTheWay | CuteTorrent/src/FileViewModel.cpp:442-509 | one comes to a folder if and only if that first file has more names |
| FileNames.FolderEntries | CuteTorrent/src/FileViewModel.cpp:442-509 | when no list of names begins with another, a folder carries its names with slashes in front and in between, and neither size nor file |
| QtText.SplitThenJoin | CuteTorrent/src/FileViewModel.cpp:444-446 | joining the parts of a path gives the path, and no part holds the separator |
| QtText.JoinThenSplit | CuteTorrent/src/FileViewModel.cpp:444-446 | splitting undoes joining for all non-empty lists of parts without the separator |
| FileTree.UnpaddedAre | CuteTorrent/src/FileViewModel.cpp:365-379 | exactly the files that are not padding are added, in their order |
| FileTree.PrefixFreeFiles | CuteTorrent/src/FileViewModel.cpp:365-379 | when no path starts with another, the file nodes are exactly the files |
| FileTree.PrefixFreeIsLeafy | CuteTorrent/src/FileViewModel.cpp:442-509 | then no file node has children |
| FileTree.PathInjective | CuteTorrent/src/FileViewModel.cpp:442-509 | different nodes have different paths |
| FileTree.BuiltFolders | CuteTorrent/src/FileViewModel.cpp:442-509 | every folder entry carries the path of its parent entry, a slash and its name |
| FileTree.FolderEntryIsPath | CuteTorrent/src/FileViewModel.cpp:57-62 | when no path starts with another, the path with which a folder is opened is that of its node |
| FileViewModels.FileViewModel.AddPath | CuteTorrent/src/FileViewModel.cpp:442-509 | the objects change as the model, in the special case of an empty tree and in the general loop alike: parent links and child lists agree |
| FileViewModels.FileViewModel.AddFirstPath | CuteTorrent/src/FileViewModel.cpp:450-474 | the special case builds what the general loop would |
| FileViewModels.FileViewModel.BuildTree | CuteTorrent/src/FileViewModel.cpp:365-379 | the objects represent the tree of the files that are not padding |
| FileTreeSums.FolderSizeIsSizeUnder | CuteTorrent/src/FileViewModel.cpp:511-531 | for every list of files, the size computed for a folder is the sum of the sizes of the files that count for it: their path continues its path, no earlier file has the same path or a longer one, and no file that is shown lies on the way |
| FileTreeSums.AllCount | CuteTorrent/src/FileViewModel.cpp:511-531 | when no path starts with another, every file in the folder counts, at any depth |
| FileNames.FolderSizeIsSizeBelow | CuteTorrent/src/FileViewModel.cpp:511-531 | when no list of names begins with another, the size computed for a folder is the sum of the sizes of all files whose names go on behind its own |
| FileTreeSums.WeighIsTotal | CuteTorrent/src/FileViewModel.cpp:511-531 | for every tree, the recursion over children counts every file below an item with no other file on the way once, and nothing else |
| FileTreeSums.VisitsEachFileOnce | CuteTorrent/src/FileViewModel.cpp:557-575 | for every tree, setting a priority comes to the item if it is a file, and else to every file below it with no other file on the way, to each once |
| FileViewModels.PriorityReachesFilesBelow | CuteTorrent/src/FileViewModel.cpp:557-575 | a file number gets the priority if and only if some visited file has it, shared numbers included; other priorities stay |
| FileViewModels.FileViewModel.CalculateFolderSize | CuteTorrent/src/FileViewModel.cpp:511-531 | the recursive loop computes the sum of the model |
| FileViewModels.FileViewModel.SetItemPriority | CuteTorrent/src/FileViewModel.cpp:557-575 | the priorities set are those of the visited files |
| FileViewModels.ParentUndoesIndex | CuteTorrent/src/FileViewModel.cpp:381-440 | index is valid exactly for existing rows and columns and gives the child of that row; going to it and back comes back, and GetRow gives the row used |
| FileViewModels.IndexUndoesParent | CuteTorrent/src/FileViewModel.cpp:381-440 | going to the parent and back to the row of a node comes back to the node |
| FileViewModels.FileViewModel.IndexOf | CuteTorrent/src/FileViewModel.cpp:381-409 | the index of the model, for the objects |
| FileViewModels.FileViewModel.ParentOf | CuteTorrent/src/FileViewModel.cpp:411-428 | the parent index of the model, for the objects |
| FileViewModels.FileViewModel.GetRow | CuteTorrent/src/FileViewModel.cpp:430-440 | the position of the item among its siblings |
| FileViewModels.FileViewTreeItem.AddChild | CuteTorrent/src/FileViewTreeItem.cpp:33-36 | the child becomes the last |
| TorrentStorage.TorrentStorrage.Append | CuteTorrent/src/TorrentStorrage.cpp:31-96 | list and map grow together; the torrent is shown as its state and the torrent filter say, case by case; an up-to-date view stays so if and only if the test of append agrees with that of filterData |
| TorrentStorage.WhenAppendAgrees | CuteTorrent/src/TorrentStorrage.cpp:31-96 | the two tests agree for every torrent if and only if a torrent filter other than NOT_ACTIVE is set, or no filter of either kind |
| TorrentStorage.TorrentStorrage.Remove | CuteTorrent/src/TorrentStorrage.cpp:117-133 | the torrent leaves map, list and view, and an up-to-date view stays so |
| TorrentStorage.TorrentStorrage.FilterData | CuteTorrent/src/TorrentStorrage.cpp:218-313 | the view is the filtered list in the order of the list, whatever m_filterType was left at |
| TorrentStorage.TorrentStorrage.FilterByGroup | CuteTorrent/src/TorrentStorrage.cpp:322-341 | the same for the group filter |
| TorrentStorage.TorrentStorrage.SetTorrentFilter | CuteTorrent/src/TorrentStorrage.cpp:210-216 | the view is up to date and holds exactly the torrents of the chosen state, said case by case; the group filter is gone |
| TorrentStorage.TorrentStorrage.SetGroupFilter | CuteTorrent/src/TorrentStorrage.cpp:315-320 | the view is up to date and holds exactly the torrents of the group, in whatever case; the torrent filter stays and goes on deciding about appended torrents |
| TorrentStorage.TorrentStorrage.Sort | CuteTorrent/src/TorrentStorrage.cpp:205-208 | the list holds the same torrents, ordered by name; a view that was up to date stays so only if it is ordered by name, and, when the names in it differ, if and only if it is |
| NameOrder.ViewAfterSort | CuteTorrent/src/TorrentStorrage.cpp:205-208 | the same for any list, filter and order by name |
| NameOrder.OneOrder | CuteTorrent/src/TorrentStorrage.cpp:27-30 | torrents whose names differ have one order by name |
| TorrentStorage.LookUpIsSafe | CuteTorrent/src/TorrentStorrage.cpp:151-161 | an index gives the torrent that stands there in the view, null from the number of all torrents on, and an access outside otherwise; the guard is enough for every index if and only if the view shows all torrents |
| TorrentStorage.TorrentStorrage.At | CuteTorrent/src/TorrentStorrage.cpp:151-161 | the torrent of the view, null, or an access behind its end |
| FilteredViews.FilterIs | CuteTorrent/src/TorrentStorrage.cpp:218-313 | a view holds exactly the elements of the list that pass, each as often as the list does and in its order |
| FilteredViews.FilterWithout | CuteTorrent/src/TorrentStorrage.cpp:117-133 | removing from the list and filtering is removing from the view |
| SearchItems.SearchItemsStorrage.Append | CuteTorrent/src/SearchItemsStorrage.cpp:70-90 | with a filter set exactly the results of other engines are shown, so that the view stays right if and only if no filter is set |
| SearchItems.SearchItemsStorrage.FilterData | CuteTorrent/src/SearchItemsStorrage.cpp:18-41 | the view is the filtered list in the order of the list |
| SearchItems.SearchItemsStorrage.SetFilter | CuteTorrent/src/SearchItemsStorrage.cpp:43-47 | the view shows exactly the results of the new engine, in whatever case, in the order of the list |
| SearchItems.SearchItemsStorrage.Remove | CuteTorrent/src/SearchItemsStorrage.cpp:102-119 | the result leaves list and view, and an up-to-date view stays so |
| RutorTable.ResultsAreTheRows | CuteTorrent/src/RutorSearchProvider.cpp:97-281 | for any mix of rows of four and five cells the counter is 0 at every row boundary and result i is that of row i |
| RutorTable.ResultsByIndex | CuteTorrent/src/RutorSearchProvider.cpp:97-281 | result i has the address of the last download link in cell 1 of row i, name and description address of the last description link behind it, seeders from the last green span and leechers from the last red one, 0 without one, and the size of the last cell but one |
| RutorTable.GoodLinksExactly | CuteTorrent/src/RutorSearchProvider.cpp:118-143 | the links of a cell make a result if and only if there is a download link and no description link in front of the first one |
| RutorTable.StaysInStep | CuteTorrent/src/RutorSearchProvider.cpp:110-277 | a row of four or five cells that can be read brings the counter back to 0 if and only if it has four with a size in cell 2, or five without |
| RutorTable.ReadsRow | CuteTorrent/src/RutorSearchProvider.cpp:110-277 | one row adds its own result and brings the counter back to 0 |
| RutorTable.WalkReadsRows | CuteTorrent/src/RutorSearchProvider.cpp:99-110 | the breadth-first walk reads the cells of the rows in order |
| RutorTable.VisitsEachOnce | CuteTorrent/src/RutorSearchProvider.cpp:99-108 | the queue gives out every tag exactly once |
| RutorTable.VisitLevel | CuteTorrent/src/RutorSearchProvider.cpp:99-108 | one level of the trees comes out after the other |
| RutorTable.ParseTableBody | CuteTorrent/src/RutorSearchProvider.cpp:97-281 | the loop over the queue ends and reads the tags in the order of the model |
| RutorTable.Cell | CuteTorrent/src/RutorSearchProvider.cpp:110-277 | the switch on the counter does what the model says, and stops where the program dereferences null |
| RutorTable.BreaksExactly | CuteTorrent/src/RutorSearchProvider.cpp:97-281 | for any tags, the walk dereferences null if and only if some cell read as cell 1 has a link to a description before any download link |
| RutorTable.TableBreaks | CuteTorrent/src/RutorSearchProvider.cpp:97-281 | a table whose rows are good or have such a cell breaks if and only if it has one of the second kind |
| RutorTable.LinksBreak | CuteTorrent/src/RutorSearchProvider.cpp:118-143 | reading the links of a cell dereferences null if and only if there is no current result and a link to a description comes before any download link |

## Left out

- Widgets, dialogs, delegates, translations and the video player: user interface.
- TorrentManager, Torrent and RssFeed: layers over libtorrent, whose behaviour is not part of this model; a torrent is
  a snapshot of what the views look at.
- `load`, `save`, `addChild` and `checkAttribute` of the SGML classes, and the other three variants of getElementsBy:
  the same walk with another test.
- SgmlRoundTrip.ParseUndoesExport: positions are not compared, because the printed text is another text; names are in
  lower case, texts are trimmed, not empty, not adjacent and without `<`, attribute values are without quotes, and script
  and style hold a text at most, as the scanner takes everything in them for text.
- SgmlRoundTrip.Reformats: the table of attributes that the parser fills is iterated in the order in which it was
  filled; the order of QHash is not part of this model.
- SgmlScan.ClosedMarkupTerminates: one direction only; an unclosed comment that is never reached, for example inside
  script, does no harm, and EndlessIsEveryReading has both directions.
- SgmlReadings.EndlessIsBounded: a tag that is opened inside a script, which takes a `<` directly in front of `</script`,
  and a double quote that is never closed can make later readings differ from earlier ones; no number of readings is
  given for such texts, for which EndlessIsEveryReading holds.
- SgmlOutcomes.WellFormedIsParsed: one direction only; a `<` inside a quoted value, a comment or a script, or behind the
  end of the reading, is never looked at.
- SgmlPositions.TextIsWellPlaced: for texts with closed comments and quotes, as others have no place of their own, and for
  texts that are parsed, as a tag that is cut off has a negative length.
- Numbers of 32 bits that overflow: sizes, positions and levels are unbounded integers; reading a number checks its range.
- Time-outs, threads, temporary files and their errors, and the settings store: steps, values and parameters instead.
- HttpWholeRequests.LinesMayComeApart: a fragment that ends within a header line makes two lines of it, which may or may
  not be headers; what becomes of the request then is not said.
- HttpWholeRequests.RequestWithoutBody: the head fits the budget with its line ends and white space, of which the program
  counts less; what NewRequestKeepsBudget says holds of every head.
- SgmlWritten.ReadsAttributesAsWritten: the name ends with a blank, as another kind of white space would belong to it; a
  value holds none of the quotes that the reader would strip or search for, and a bare one no `>`; an equals sign stands
  in double quotes only, for which OneAttributeExactly has both directions.
- SgmlOutline.OneTagPerLine: for forests without texts, as a text is put behind what is in front of it, and without line
  breaks in the tags; ExportPrintsForest has every forest.
- HttpOnTheWire.ResponseCarriesItsHeaders: names without colons, and no carriage returns in names and values;
  FieldsRead has every head.
- FileNames.FolderSizeIsSizeBelow: for lists of names of which none begins with another; FolderSizeIsSizeUnder has
  every list.
- HttpFraming.DecodeUndoesWrite: a head with an empty line inside ends there for the decoder, which then takes the rest of
  the head for the body; responses to HEAD are not part of this model.
- HttpResponses.HttpResponse.WriteToSocket: a socket that takes nothing for ever makes the loop wait for ever; the
  model's socket takes nothing a finite number of times, and one that has failed stays closed.
- Multipart.ParseUndoesLayout: names and file names hold no quotes, header lines no line breaks and fewer characters than
  the limit of a line, and no line of a content starts like a delimiter.
- HttpPool.HttpConnectionHandlerPool.GetConnectionHandler: steps are atomic under the mutex; a handler whose socket
  descriptor is refused stays busy in the program, which is not part of this model.
- Authentication, the address filter and nonces: opaque hashing.
- FileViewModels.FileViewModel.AddPath: native separators are taken to be `/`.
- CalculateFolderReady: floating-point averages.
- RutorTable.Cell: the test for a size, its number and the counts are arbitrary functions of the cell's text.
- Search provider networking, Scheduller, PeiceDisplayWidget, UpdateNotifier, time and size formatting: easy, or without
  a claim to prove.
