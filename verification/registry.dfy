/** The document registry: loaded documents in insertion order, keyed by name, plus the name of the
    active one and the upload status. A JavaScript `Map` keeps keys in insertion order, so it is
    modelled as a sequence of documents whose names are distinct. */
module Registry {
  import opened Wrappers
  import opened Types
  import opened PdfText

  datatype Registry = Registry(docs: seq<PdfData>, active: Option<string>, loading: bool, progress: int)

  /** The registry a session starts with. */
  const Empty: Registry := Registry([], None, false, 0)

  predicate DistinctNames(docs: seq<PdfData>) {
    forall i, j :: 0 <= i < j < |docs| ==> docs[i].name != docs[j].name
  }

  predicate HasName(docs: seq<PdfData>, name: string) {
    exists i :: 0 <= i < |docs| && docs[i].name == name
  }

  /** The invariant every operation keeps: names are keys, and an active name is one of them. */
  predicate Valid(r: Registry) {
    DistinctNames(r.docs) && (r.active.Some? ==> HasName(r.docs, r.active.value))
  }

  /** `Map.get`: the document stored under `name`. */
  function Find(docs: seq<PdfData>, name: string): (r: Option<PdfData>)
    ensures r.None? <==> !HasName(docs, name)
    ensures r.Some? ==> r.value in docs && r.value.name == name
  {
    if |docs| == 0 then None
    else if docs[0].name == name then Some(docs[0])
    else
      var found := Find(docs[1..], name);
      assert HasName(docs, name) ==> HasName(docs[1..], name) by {
        if HasName(docs, name) {
          var i :| 0 <= i < |docs| && docs[i].name == name;
          assert docs[1..][i - 1].name == name;
        }
      }
      found
  }

  /** `Map.delete`: every document except the one named `name`, the rest in their order. */
  function Without(docs: seq<PdfData>, name: string): (r: seq<PdfData>)
    ensures |r| <= |docs|
    ensures forall d :: d in r <==> d in docs && d.name != name
  {
    if |docs| == 0 then []
    else if docs[0].name == name then Without(docs[1..], name)
    else [docs[0]] + Without(docs[1..], name)
  }

  /** Adding a file. `extraction` is the page contents the extractor delivers, or `None` when it
      fails. A name already present only becomes active; a successful extraction appends the new
      document and activates it; a failed one leaves documents and active name alone. Either
      extraction outcome ends with loading cleared and progress at 100. */
  function AddPdf(r: Registry, file: FileRef, extraction: Option<seq<seq<TextItem>>>): (r': Registry)
    ensures HasName(r.docs, file.name) ==> r' == r.(active := Some(file.name))
    ensures !HasName(r.docs, file.name) ==> !r'.loading && r'.progress == 100
    ensures !HasName(r.docs, file.name) && extraction.None? ==> r'.docs == r.docs && r'.active == r.active
    ensures !HasName(r.docs, file.name) && extraction.Some? ==>
      var pages := extraction.value;
      && r'.docs == r.docs + [PdfData(file, file.name, Assemble(PageTexts(pages)), |pages|)]
      && r'.active == Some(file.name)
  {
    if HasName(r.docs, file.name) then r.(active := Some(file.name))
    else
      match extraction
      case None => r.(loading := false, progress := 100)
      case Some(pages) =>
        var doc := PdfData(file, file.name, Assemble(PageTexts(pages)), |pages|);
        Registry(r.docs + [doc], Some(file.name), false, 100)
  }

  /** The first remaining key, read through `|| null`: an empty name counts as none. */
  function Successor(docs: seq<PdfData>): (r: Option<string>)
    ensures r.Some? ==> |docs| > 0 && r.value == docs[0].name && r.value != ""
    ensures r.None? ==> |docs| == 0 || docs[0].name == ""
  {
    if |docs| > 0 && docs[0].name != "" then Some(docs[0].name) else None
  }

  /** Removing a document; if it was active, the first remaining one becomes active. */
  function Remove(r: Registry, name: string): (r': Registry)
    ensures r'.docs == Without(r.docs, name)
    ensures r.active == Some(name) ==> r'.active == Successor(r'.docs)
    ensures r.active != Some(name) ==> r'.active == r.active
    ensures r'.loading == r.loading && r'.progress == r.progress
  {
    var docs := Without(r.docs, name);
    r.(docs := docs, active := if r.active == Some(name) then Successor(docs) else r.active)
  }

  /** Selecting a document: only a loaded name can become active. */
  function Activate(r: Registry, name: string): (r': Registry)
    ensures HasName(r.docs, name) ==> r' == r.(active := Some(name))
    ensures !HasName(r.docs, name) ==> r' == r
  {
    if HasName(r.docs, name) then r.(active := Some(name)) else r
  }

  /** What consumers read: the documents in insertion order and the active document's fields, with
      '', '', 0 and no file when no document is active. An empty active name is falsy and reads as
      no document. */
  datatype View = View(
    available: seq<PdfData>,
    activeName: Option<string>,
    file: Option<FileRef>,
    text: string,
    name: string,
    totalPages: nat,
    loading: bool,
    progress: int)

  function ActiveDoc(r: Registry): Option<PdfData> {
    if r.active.Some? && r.active.value != "" then Find(r.docs, r.active.value) else None
  }

  function ViewOf(r: Registry): (v: View)
    ensures v.available == r.docs && v.activeName == r.active
    ensures ActiveDoc(r).None? ==> v.file.None? && v.text == "" && v.name == "" && v.totalPages == 0
    ensures ActiveDoc(r).Some? ==>
      var d := ActiveDoc(r).value;
      v.file == Some(d.file) && v.text == d.text && v.name == d.name && v.totalPages == d.totalPages
  {
    match ActiveDoc(r)
    case None => View(r.docs, r.active, None, "", "", 0, r.loading, r.progress)
    case Some(d) => View(r.docs, r.active, Some(d.file), d.text, d.name, d.totalPages, r.loading, r.progress)
  }

  // ----- Properties -----

  /** `Without` is a filter: it distributes over concatenation, so the order of the kept documents is
      their original order. */
  lemma {:induction false} WithoutConcat(a: seq<PdfData>, b: seq<PdfData>, name: string)
    ensures Without(a + b, name) == Without(a, name) + Without(b, name)
  {
    if |a| > 0 {
      assert (a + b)[1..] == a[1..] + b;
      WithoutConcat(a[1..], b, name);
    } else {
      assert a + b == b;
    }
  }

  /** Removing a name that is not loaded changes nothing. */
  lemma {:induction false} WithoutAbsent(docs: seq<PdfData>, name: string)
    requires !HasName(docs, name)
    ensures Without(docs, name) == docs
  {
    if |docs| > 0 {
      HasNameTail(docs, name);
      WithoutAbsent(docs[1..], name);
      assert [docs[0]] + docs[1..] == docs;
    }
  }

  /** A name in the tail is a name of the whole. */
  lemma HasNameTail(docs: seq<PdfData>, name: string)
    requires |docs| > 0
    ensures HasName(docs[1..], name) ==> HasName(docs, name)
  {
    if HasName(docs[1..], name) {
      var i :| 0 <= i < |docs[1..]| && docs[1..][i].name == name;
      assert docs[i + 1].name == name;
    }
  }

  lemma RemoveAbsent(r: Registry, name: string)
    requires Valid(r) && !HasName(r.docs, name)
    ensures Remove(r, name) == r
  {
    WithoutAbsent(r.docs, name);
  }

  /** Removing keeps names distinct. */
  lemma {:induction false} WithoutDistinct(docs: seq<PdfData>, name: string)
    requires DistinctNames(docs)
    ensures DistinctNames(Without(docs, name))
  {
    if |docs| > 0 {
      var rest := docs[1..];
      assert DistinctNames(rest) by {
        forall i, j | 0 <= i < j < |rest| ensures rest[i].name != rest[j].name {
          assert rest[i] == docs[i + 1] && rest[j] == docs[j + 1];
        }
      }
      WithoutDistinct(rest, name);
      if docs[0].name != name {
        var w := Without(rest, name);
        forall i | 0 <= i < |w| ensures w[i].name != docs[0].name {
          assert w[i] in rest;
          var k :| 0 <= k < |rest| && rest[k] == w[i];
          assert docs[k + 1] == w[i];
        }
      }
    }
  }

  /** A name is present after removal exactly when it was present and is not the removed one. */
  lemma WithoutHasName(docs: seq<PdfData>, name: string, other: string)
    ensures HasName(Without(docs, name), other) <==> HasName(docs, other) && other != name
  {
    var w := Without(docs, name);
    if HasName(w, other) {
      var i :| 0 <= i < |w| && w[i].name == other;
      assert w[i] in docs;
    }
    if HasName(docs, other) && other != name {
      var i :| 0 <= i < |docs| && docs[i].name == other;
      assert docs[i] in w;
    }
  }

  lemma AddPdfValid(r: Registry, file: FileRef, extraction: Option<seq<seq<TextItem>>>)
    requires Valid(r)
    ensures Valid(AddPdf(r, file, extraction))
  {
    var r' := AddPdf(r, file, extraction);
    if !HasName(r.docs, file.name) && extraction.Some? {
      assert r'.docs[|r.docs|].name == file.name;
      forall i | 0 <= i < |r.docs| ensures r'.docs[i].name != file.name {
        assert r'.docs[i] == r.docs[i];
      }
      if r.active.Some? {
        var i :| 0 <= i < |r.docs| && r.docs[i].name == r.active.value;
        assert r'.docs[i] == r.docs[i];
      }
    }
  }

  lemma RemoveValid(r: Registry, name: string)
    requires Valid(r)
    ensures Valid(Remove(r, name))
  {
    var r' := Remove(r, name);
    WithoutDistinct(r.docs, name);
    if r'.active.Some? {
      if r.active == Some(name) {
        assert r'.docs[0].name == r'.active.value;
      } else {
        WithoutHasName(r.docs, name, r.active.value);
      }
    }
  }

  lemma ActivateValid(r: Registry, name: string)
    requires Valid(r)
    ensures Valid(Activate(r, name))
  {
  }

  /** Once added, a document is found under its name with the assembled text. */
  lemma AddThenFind(r: Registry, file: FileRef, pages: seq<seq<TextItem>>)
    requires Valid(r) && !HasName(r.docs, file.name)
    ensures var r' := AddPdf(r, file, Some(pages));
      ActiveDoc(r') == if file.name == "" then None
                       else Some(PdfData(file, file.name, Assemble(PageTexts(pages)), |pages|))
  {
    var r' := AddPdf(r, file, Some(pages));
    var doc := PdfData(file, file.name, Assemble(PageTexts(pages)), |pages|);
    if file.name != "" {
      FindLast(r.docs, doc);
    }
  }

  /** A document appended under a new name is what `Find` returns for that name. */
  lemma {:induction false} FindLast(docs: seq<PdfData>, doc: PdfData)
    requires !HasName(docs, doc.name)
    ensures Find(docs + [doc], doc.name) == Some(doc)
  {
    if |docs| > 0 {
      assert (docs + [doc])[1..] == docs[1..] + [doc];
      HasNameTail(docs, doc.name);
      assert docs[0].name != doc.name;
      FindLast(docs[1..], doc);
    } else {
      assert docs + [doc] == [doc];
    }
  }
}
