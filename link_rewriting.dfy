/** The annotation walker and the action rewriter. The PDF library's objects
    appear only as far as the program looks at them: a page is a page object
    (compared by equality) and an optional annotation array; an annotation may
    carry an action dictionary, the one object the program changes in place;
    a named destination gives a target page object and an anchor point. Text
    extraction is the library's and is a parameter here. */
module LinkRewriting {
  import opened Variants
  import opened CitationText
  import opened PageResolution

  datatype Option<T> = None | Some(value: T)

  /** The values an action dictionary maps its keys to. */
  datatype PdfObject = Name(name: string) | Str(text: string) | OtherObject(id: int)

  /** Keys of an action dictionary (PdfName.S, PdfName.D, PdfName.URI). */
  const KeyS := "S"
  const KeyD := "D"
  const KeyUri := "URI"

  /** Action types (PdfName.GOTO, PdfName.URI). */
  const GoTo := Name("GoTo")
  const Uri := Name("URI")

  /** Destination names of bibliography links start with this marker. */
  const CiteMarker := "cite"

  type Entries = map<string, PdfObject>

  /** An action dictionary of the PDF, updated in place by Put. */
  class ActionDictionary {
    var entries: Entries

    constructor (entries: Entries)
      ensures this.entries == entries
    {
      this.entries := entries;
    }

    method Put(key: string, value: PdfObject)
      modifies this
      ensures entries == old(entries)[key := value]
    {
      entries := entries[key := value];
    }
  }

  datatype Annotation = Annotation(action: ActionDictionary?)

  /** An opaque page object; two are the same page when they are equal. */
  datatype PageObject = PageObject(id: int)

  datatype Page = Page(obj: PageObject, annots: Option<seq<Annotation>>)

  /** A named destination: target page object and anchor (left, top). */
  datatype Destination = Destination(page: PageObject, left: real, top: real)

  /** iTextSharp's Rectangle(llx, lly, urx, ury). */
  datatype Rectangle = Rectangle(llx: real, lly: real, urx: real, ury: real)

  /** What the walker reads from the document: the pages in order, the
      named-destination table and the width of page 1. */
  datatype Document = Document(pages: seq<Page>, destinations: map<string, Destination>, firstPageWidth: real)

  /** The library's region text extraction: page number and region to text. */
  type TextExtractor = (int, Rectangle) -> string

  function PageObjects(pages: seq<Page>): (objs: seq<PageObject>)
    ensures |objs| == |pages| && forall i :: 0 <= i < |pages| ==> objs[i] == pages[i].obj
  {
    seq(|pages|, i requires 0 <= i < |pages| => pages[i].obj)
  }

  // ---------------------------------------------------------------------------
  // The rewrite of one action, as a function of its entries

  /** The action navigates within the document to a string-named destination
      whose name starts with "cite": the only actions the program rewrites. */
  predicate IsCitationLink(e: Entries) {
    KeyS in e && e[KeyS] == GoTo && KeyD in e && e[KeyD].Str? && StartsWith(e[KeyD].text, CiteMarker)
  }

  /** What the walker needs of an action so that it does not throw: an /S
      entry to compare, and for a citation link a named destination to look up. */
  predicate Walkable(doc: Document, e: Entries) {
    KeyS in e && (IsCitationLink(e) ==> e[KeyD].text in doc.destinations)
  }

  /** The region whose text is extracted: anchored at the destination's
      (left, top), as wide as page 1, height argument 0. */
  function CitationRegion(doc: Document, dest: Destination): Rectangle {
    Rectangle(dest.left, dest.top, doc.firstPageWidth, 0.0)
  }

  /** The URL a citation link is redirected to. The page number passed to the
      extractor is the backward scan's result, 0 when no page matched. */
  function CitationUrl(doc: Document, extract: TextExtractor, v: Variant, name: string): (url: string)
    requires name in doc.destinations
    ensures StartsWith(url, SearchPrefix) && |url| >= |SearchPrefix| + |SearchSuffix|
    ensures url[|url| - |SearchSuffix|..] == SearchSuffix
  {
    var dest := doc.destinations[name];
    var pageNumber := LastPageNumber(PageObjects(doc.pages), dest.page);
    var text := extract(pageNumber, CitationRegion(doc, dest));
    SearchUrl(Sanitize(Delimit(text, v), v))
  }

  /** Whatever text the extractor returns, the query inside the URL holds no
      space or line break and is already sanitized. */
  lemma CitationUrlIsClean(doc: Document, extract: TextExtractor, v: Variant, name: string)
    requires name in doc.destinations
    ensures var url := CitationUrl(doc, extract, v, name);
      var query := url[|SearchPrefix|..|url| - |SearchSuffix|];
      ' ' !in query && '\r' !in query && '\n' !in query && Sanitize(query, v) == query
  {
    var dest := doc.destinations[name];
    var text := extract(LastPageNumber(PageObjects(doc.pages), dest.page), CitationRegion(doc, dest));
    var query := Sanitize(Delimit(text, v), v);
    var url := SearchUrl(query);
    assert url[|SearchPrefix|..|url| - |SearchSuffix|] == query;
    SanitizeIdempotent(Delimit(text, v), v);
  }

  /** The two Put calls: /S becomes /URI and /URI holds the URL. */
  function Redirect(e: Entries, url: string): (r: Entries)
    ensures r.Keys == e.Keys + {KeyS, KeyUri}
    ensures r[KeyS] == Uri && r[KeyUri] == Str(url)
    ensures forall k :: k in e && k != KeyS && k != KeyUri ==> r[k] == e[k]
  {
    e[KeyS := Uri][KeyUri := Str(url)]
  }

  /** The entries of an action after the walker has visited it. */
  function Processed(doc: Document, extract: TextExtractor, v: Variant, e: Entries): Entries
    requires Walkable(doc, e)
  {
    if IsCitationLink(e) then Redirect(e, CitationUrl(doc, extract, v, e[KeyD].text)) else e
  }

  /** A citation link comes out as a URI action to the search URL with every
      other entry, /D included, unchanged; any other action is untouched; and
      the result is no longer a citation link. */
  lemma ProcessedAction(doc: Document, extract: TextExtractor, v: Variant, e: Entries)
    requires Walkable(doc, e)
    ensures var r := Processed(doc, extract, v, e);
      && Walkable(doc, r)
      && !IsCitationLink(r)
      && (IsCitationLink(e) ==>
            && r.Keys == e.Keys + {KeyUri}
            && r[KeyS] == Uri
            && r[KeyUri] == Str(CitationUrl(doc, extract, v, e[KeyD].text))
            && StartsWith(r[KeyUri].text, SearchPrefix)
            && forall k :: k in e && k != KeyS ==> k == KeyUri || r[k] == e[k])
      && (!IsCitationLink(e) ==> r == e)
  {
  }

  /** Visiting an action a second time (two annotations sharing one action
      dictionary) changes nothing more: each action is rewritten at most once. */
  lemma ProcessedIdempotent(doc: Document, extract: TextExtractor, v: Variant, e: Entries)
    requires Walkable(doc, e)
    ensures Walkable(doc, Processed(doc, extract, v, e))
    ensures Processed(doc, extract, v, Processed(doc, extract, v, e)) == Processed(doc, extract, v, e)
  {
  }

  // ---------------------------------------------------------------------------
  // The rewrite of one action, in place

  /** One pass of the inner loop body on a non-null action dictionary. */
  method ProcessAction(doc: Document, extract: TextExtractor, v: Variant, action: ActionDictionary)
    requires Walkable(doc, action.entries)
    modifies action
    ensures action.entries == Processed(doc, extract, v, old(action.entries))
  {
    if action.entries[KeyS] != GoTo {
      return;
    }
    if KeyD !in action.entries {
      return;
    }
    var destinationObject := action.entries[KeyD];
    if destinationObject.Str? {
      var destinationString := destinationObject.text;
      if StartsWith(destinationString, CiteMarker) {
        var dest := doc.destinations[destinationString];
        var pageNumber := ResolvePage(PageObjects(doc.pages), dest.page);
        var text := extract(pageNumber, CitationRegion(doc, dest));
        var textCutoff := Delimit(text, v);
        var textCleaned := Sanitize(textCutoff, v);
        var textNewUrl := SearchUrl(textCleaned);
        action.Put(KeyS, Uri);
        action.Put(KeyUri, Str(textNewUrl));
      }
    }
  }

  // ---------------------------------------------------------------------------
  // The walker

  /** The action dictionaries an annotation array refers to. */
  function AnnotationActions(annots: seq<Annotation>): set<ActionDictionary>
  {
    set j | 0 <= j < |annots| && annots[j].action != null :: annots[j].action
  }

  function PageActions(page: Page): set<ActionDictionary> {
    if page.annots.None? then {} else AnnotationActions(page.annots.value)
  }

  /** The action dictionaries all pages' annotations refer to. */
  function DocumentActions(pages: seq<Page>): set<ActionDictionary>
  {
    set i, a | 0 <= i < |pages| && a in PageActions(pages[i]) :: a
  }

  /** Every annotation of the page carries an action dictionary. */
  predicate ActionsPresent(page: Page) {
    page.annots.Some? ==> forall j :: 0 <= j < |page.annots.value| ==> page.annots.value[j].action != null
  }

  /** The annotation loop of one page; a page without an annotation array is
      skipped. */
  method ChangePageLinks(doc: Document, extract: TextExtractor, v: Variant, page: Page)
    requires forall a :: a in PageActions(page) ==> Walkable(doc, a.entries)
    requires !v.SkipsMissingAction() ==> ActionsPresent(page)
    modifies PageActions(page)
    ensures forall a :: a in PageActions(page) ==> a.entries == Processed(doc, extract, v, old(a.entries))
  {
    if page.annots.None? {
      return;
    }
    var annots := page.annots.value;
    // an action may be shared by several annotations and already rewritten
    forall a | a in PageActions(page)
      ensures Walkable(doc, Processed(doc, extract, v, old(a.entries)))
      ensures Processed(doc, extract, v, Processed(doc, extract, v, old(a.entries)))
           == Processed(doc, extract, v, old(a.entries))
    {
      ProcessedIdempotent(doc, extract, v, old(a.entries));
    }
    var j := 0;
    ghost var visited: set<ActionDictionary> := {};
    while j < |annots|
      invariant 0 <= j <= |annots|
      invariant visited <= PageActions(page)
      invariant forall k :: 0 <= k < j && annots[k].action != null ==> annots[k].action in visited
      invariant forall a :: a in visited ==> a.entries == Processed(doc, extract, v, old(a.entries))
      invariant forall a :: a in PageActions(page) && a !in visited ==> a.entries == old(a.entries)
    {
      var action := annots[j].action;
      if action == null {
        // cite_link_changer.cs skips it; pdf_link_changer.cs would throw
        assert v.SkipsMissingAction();
      } else {
        assert action in PageActions(page);
        ProcessAction(doc, extract, v, action);
        visited := visited + {action};
      }
      j := j + 1;
    }
  }

  /** The walk over pages 1..N. Every action dictionary reachable from an
      annotation ends up as Processed makes it from its own entries before the
      run; nothing else in the heap changes. The requires clauses are what
      keeps the source from throwing: every action has an /S entry, every
      citation link names a known destination, and in pdf_link_changer.cs,
      which does not check for a missing action, every annotation has one. */
  method ChangeCitationLinks(doc: Document, extract: TextExtractor, v: Variant)
    requires forall a :: a in DocumentActions(doc.pages) ==> Walkable(doc, a.entries)
    requires !v.SkipsMissingAction() ==> forall i :: 0 <= i < |doc.pages| ==> ActionsPresent(doc.pages[i])
    modifies DocumentActions(doc.pages)
    ensures forall a :: a in DocumentActions(doc.pages) ==>
      a.entries == Processed(doc, extract, v, old(a.entries))
  {
    var all := DocumentActions(doc.pages);
    forall a | a in all
      ensures Walkable(doc, Processed(doc, extract, v, old(a.entries)))
      ensures Processed(doc, extract, v, Processed(doc, extract, v, old(a.entries)))
           == Processed(doc, extract, v, old(a.entries))
    {
      ProcessedIdempotent(doc, extract, v, old(a.entries));
    }
    var i := 1;
    ghost var visited: set<ActionDictionary> := {};
    while i <= |doc.pages|
      invariant 1 <= i <= |doc.pages| + 1
      invariant visited <= all
      invariant forall k, a :: 0 <= k < i - 1 && a in PageActions(doc.pages[k]) ==> a in visited
      invariant forall a :: a in visited ==> a.entries == Processed(doc, extract, v, old(a.entries))
      invariant forall a :: a in all && a !in visited ==> a.entries == old(a.entries)
    {
      var page := doc.pages[i - 1];
      assert PageActions(page) <= all;
      ChangePageLinks(doc, extract, v, page);
      visited := visited + PageActions(page);
      i := i + 1;
    }
  }
}
