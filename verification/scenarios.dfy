/** Concrete runs taken from the repository's unit tests and the documented
    examples, stated over the model. */
module Scenarios {
  import opened Wrappers
  import opened Errors
  import opened Paths
  import opened XmlTree
  import opened IdentityDocuments
  import Kedu
  import Drafix

  /** An empty positional field `p<n>` in namespace `ns`. */
  function P(ns: string, local: string): Element
  {
    Element(ns, local, "", [])
  }

  /** The user id entry of the test documents: fields 1-3 and 6-9, empty. */
  function OriginalEntry(ns: string): Element
  {
    Element(ns, "II", "", [P(ns, "p1"), P(ns, "p2"), P(ns, "p3"), P(ns, "p6"), P(ns, "p7"), P(ns, "p8"), P(ns, "p9")])
  }

  /** The same entry with the document type and number inserted as fields 4
      and 5, created without a namespace. */
  function PatchedTestEntry(ns: string, typeCode: string, number: string): Element
  {
    Element(ns, "II", "", [P(ns, "p1"), P(ns, "p2"), P(ns, "p3"), Field("p4", typeCode), Field("p5", number),
                           P(ns, "p6"), P(ns, "p7"), P(ns, "p8"), P(ns, "p9")])
  }

  /** The patched entry as parsed back from text: the inserted fields inherit
      the document's default namespace, so their tags are `{ns}p4` and `{ns}p5`. */
  function ParsedPatchedEntry(ns: string, typeCode: string, number: string): Element
  {
    Element(ns, "II", "", [P(ns, "p1"), P(ns, "p2"), P(ns, "p3"), Element(ns, "p4", typeCode, []),
                           Element(ns, "p5", number, []), P(ns, "p6"), P(ns, "p7"), P(ns, "p8"), P(ns, "p9")])
  }

  /** A declaration in namespace `ns` with the given entries under `ZUSDRA`. */
  function Declaration(ns: string, entries: seq<Element>): Element
  {
    Element(ns, "KEDU", "", [Element(ns, "ZUSDRA", "", entries)])
  }

  /** Every entry is an `II` element of namespace `ns`. */
  predicate AllUserEntries(ns: string, entries: seq<Element>)
  {
    forall j :: 0 <= j < |entries| ==> entries[j].ns == ns && entries[j].local == "II"
  }

  // ---------------------------------------------------------------------------
  // Identity documents
  // ---------------------------------------------------------------------------

  /** Upper-casing works character by character. */
  lemma UppersTo(s: string, t: string)
    requires |t| == |s|
    requires forall i :: 0 <= i < |s| ==> UpperChar(s[i]) == t[i]
    ensures Upper(s) == t
  {
  }

  /** Normalising a string with no surrounding whitespace upper-cases it
      character by character. */
  lemma NormalisesTo(s: string, t: string)
    requires IsStripped(s) && |t| == |s|
    requires forall i :: 0 <= i < |s| ==> UpperChar(s[i]) == t[i]
    ensures Normalise(s) == t
  {
    StripStripped(s);
    UppersTo(s, t);
  }

  /** A number whose normal form is too short for either format is rejected. */
  lemma ShortNumber(raw: string)
    requires |Normalise(raw)| < 9
    ensures Classify(raw) == Err(UnknownDocumentFormat(raw))
  {
  }

  // The six numbers of the unit tests, in lower, upper and mixed case,
  // normalise to their upper-case forms.

  lemma NormaliseLowerIdCard()
    ensures Normalise("aaa000000") == "AAA000000"
  {
    NormalisesTo("aaa000000", "AAA000000");
  }

  lemma NormaliseLowerPassport()
    ensures Normalise("aa0000000") == "AA0000000"
  {
    NormalisesTo("aa0000000", "AA0000000");
  }

  lemma NormaliseUpperIdCard()
    ensures Normalise("BBB000000") == "BBB000000"
  {
    NormalisesTo("BBB000000", "BBB000000");
  }

  lemma NormaliseUpperPassport()
    ensures Normalise("BB0000000") == "BB0000000"
  {
    NormalisesTo("BB0000000", "BB0000000");
  }

  lemma NormaliseMixedIdCard()
    ensures Normalise("CcC000000") == "CCC000000"
  {
    NormalisesTo("CcC000000", "CCC000000");
  }

  lemma NormaliseMixedPassport()
    ensures Normalise("Ca0000000") == "CA0000000"
  {
    NormalisesTo("Ca0000000", "CA0000000");
  }

  /** The normal forms of the test numbers have the shapes that give the
      type codes the unit tests expect: `1` for three letters, `2` for two. */
  lemma IdCardTestShapes()
    ensures IdCardShape("AAA000000") && IdCardShape("BBB000000") && IdCardShape("CCC000000")
  {
  }

  lemma PassportTestShapes()
    ensures !IdCardShape("AA0000000") && PassportShape("AA0000000")
    ensures !IdCardShape("BB0000000") && PassportShape("BB0000000")
    ensures !IdCardShape("CA0000000") && PassportShape("CA0000000")
  {
    assert !IsUpper("AA0000000"[2]) && !IsUpper("BB0000000"[2]) && !IsUpper("CA0000000"[2]);
  }

  lemma StripSurroundingSpace()
    ensures Strip(" abc123456 ") == "abc123456"
  {
    assert StripSplit(" abc123456 ", "abc123456", 1);
    StripUnique(" abc123456 ", "abc123456", 1);
  }

  lemma UpperExample()
    ensures Upper("abc123456") == "ABC123456"
  {
    UppersTo("abc123456", "ABC123456");
  }

  /** Surrounding whitespace is stripped before matching. */
  lemma NormaliseSurroundingSpace()
    ensures Normalise(" abc123456 ") == "ABC123456"
  {
    StripSurroundingSpace();
    UpperExample();
  }

  /** A number matching neither format is rejected and named in the error. */
  lemma ClassifyShortNumber()
    ensures Classify("12345") == Err(UnknownDocumentFormat("12345"))
  {
    NormalisesTo("12345", "12345");
    ShortNumber("12345");
  }

  // ---------------------------------------------------------------------------
  // The patcher
  // ---------------------------------------------------------------------------

  /** The positions of entries `from .. from + n - 1` of the first container. */
  function Column(from: nat, n: nat): seq<Pos>
  {
    seq(n, k requires 0 <= k => Pos(0, from + k))
  }

  /** The entries of a declaration are visited in order, one per `II`. */
  lemma {:induction false} EntriesFrom(ns: string, entries: seq<Element>, j: nat)
    requires ns != "" && AllUserEntries(ns, entries) && j <= |entries|
    ensures EntriesOf(Declaration(ns, entries), ns, None, 0, j) == Column(j, |entries| - j)
    decreases |entries| - j
  {
    var root := Declaration(ns, entries);
    if j < |entries| {
      EntriesFrom(ns, entries, j + 1);
      assert Selected(root, ns, None, Pos(0, j));
      assert [Pos(0, j)] + Column(j + 1, |entries| - j - 1) == Column(j, |entries| - j);
    }
  }

  lemma DeclarationEntries(ns: string, entries: seq<Element>)
    requires ns != "" && AllUserEntries(ns, entries)
    ensures Kedu.Entries(Declaration(ns, entries)) == Column(0, |entries|)
  {
    var root := Declaration(ns, entries);
    EntriesFrom(ns, entries, 0);
    assert SelectFrom(root, ns, None, 1) == [];
  }

  /** The test entry has neither field yet. */
  lemma OriginalEntryNeedsPatch(ns: string)
    ensures !HasChildTagSuffix(OriginalEntry(ns), "p4") && !HasChildTagSuffix(OriginalEntry(ns), "p5")
    ensures !HasIdFields(OriginalEntry(ns))
  {
    var e := OriginalEntry(ns);
    forall i | 0 <= i < |e.children|
      ensures !EndsWith(Tag(e.children[i]), "p4") && !EndsWith(Tag(e.children[i]), "p5")
    {
      ShortTagSuffix(e.children[i], "p4");
      ShortTagSuffix(e.children[i], "p5");
    }
    AnyTagEndsWithSome(e.children, "p4");
    AnyTagEndsWithSome(e.children, "p5");
  }

  /** A tag ends with a suffix as long as its local name exactly when the
      local name is that suffix. */
  lemma ShortTagSuffix(c: Element, suffix: string)
    requires |c.local| == |suffix| && forall k :: 0 <= k < |suffix| ==> suffix[k] != '}'
    ensures EndsWith(Tag(c), suffix) <==> c.local == suffix
  {
    TagSuffixIsLocalSuffix(c, suffix);
    assert c.local[|c.local| - |suffix|..] == c.local;
  }

  /** Inserting the fields into the test entry gives the expected entry. */
  lemma PatchOriginalEntry(ns: string, typeCode: string, number: string)
    ensures WithIdFields(OriginalEntry(ns), typeCode, number) == PatchedTestEntry(ns, typeCode, number)
  {
    var e := OriginalEntry(ns);
    assert e.children[..3] + [Field("p4", typeCode), Field("p5", number)] + e.children[3..]
        == PatchedTestEntry(ns, typeCode, number).children;
  }

  /** Every entry of the declaration lacks the fields. */
  predicate AllNeedPatch(entries: seq<Element>)
  {
    forall j :: 0 <= j < |entries| ==> !HasIdFields(entries[j])
  }

  /** The entries with the two fields inserted. */
  function PatchedEntries(entries: seq<Element>, typeCode: string, number: string): seq<Element>
  {
    seq(|entries|, j requires 0 <= j < |entries| => WithIdFields(entries[j], typeCode, number))
  }

  /** `add_id_document` on a loaded declaration whose entries all lack the
      fields succeeds for a recognised document whose number can be written,
      and sets the flag. */
  lemma AddIdSucceeds(k: Kedu.KeduDocument, ns: string, entries: seq<Element>, raw: string)
    requires k.tree == Some(Declaration(ns, entries)) && ns != ""
    requires |entries| > 0 && AllUserEntries(ns, entries) && AllNeedPatch(entries)
    requires Classify(raw).Ok? && XmlText(Normalise(raw))
    ensures Kedu.AddIdDocument(k, raw).result.Ok? && Kedu.AddIdDocument(k, raw).state.patched
  {
    var root := Declaration(ns, entries);
    DeclarationEntries(ns, entries);
    var ps := Kedu.Entries(root);
    assert Selected(root, ns, None, ps[0]);
    Kedu.AddIdDocumentOutcome(k, root, raw);
    assert Kedu.NeedsPatch(root, ps[0]);
  }

  /** ... and every entry gains the same two fields. */
  lemma AddIdTree(k: Kedu.KeduDocument, ns: string, entries: seq<Element>, raw: string)
    requires k.tree == Some(Declaration(ns, entries)) && ns != ""
    requires |entries| > 0 && AllUserEntries(ns, entries) && AllNeedPatch(entries)
    requires Kedu.AddIdDocument(k, raw).result.Ok?
    ensures Classify(raw).Ok?
    ensures Kedu.AddIdDocument(k, raw).state.tree
         == Some(Declaration(ns, PatchedEntries(entries, Classify(raw).value, Normalise(raw))))
  {
    var root := Declaration(ns, entries);
    DeclarationEntries(ns, entries);
    var ps := Kedu.Entries(root);
    var after := Kedu.AddIdDocument(k, raw).state.tree.value;
    assert Classify(raw).Ok? && Frame(root, after, ps) by {
      assert Selected(root, ns, None, ps[0]);
      Kedu.AddIdDocumentOutcome(k, root, raw);
      assert Kedu.NeedsPatch(root, ps[0]);
    }
    var patched := PatchedEntries(entries, Classify(raw).value, Normalise(raw));
    forall j | 0 <= j < |entries|
      ensures ValidPos(after, Pos(0, j)) && At(after, Pos(0, j)) == patched[j]
    {
      Kedu.AddIdDocumentEffect(k, root, raw);
      assert ps[j] == Pos(0, j);
      assert Kedu.NeedsPatch(root, ps[j]);
    }
    DeclarationRebuilt(ns, entries, after, patched);
  }

  /** A tree framed by a declaration whose entries are all replaced is the
      declaration of the replacements. */
  lemma DeclarationRebuilt(ns: string, entries: seq<Element>, after: Element, patched: seq<Element>)
    requires Frame(Declaration(ns, entries), after, Column(0, |entries|)) && |patched| == |entries|
    requires forall j :: 0 <= j < |entries| ==> ValidPos(after, Pos(0, j)) && At(after, Pos(0, j)) == patched[j]
    ensures after == Declaration(ns, patched)
  {
    var root := Declaration(ns, entries);
    assert ContainerFrame(root.children[0], after.children[0], 0, Column(0, |entries|));
    assert after.children[0].children == patched by {
      forall j | 0 <= j < |entries|
        ensures after.children[0].children[j] == patched[j]
      {
        assert At(after, Pos(0, j)) == patched[j];
      }
    }
    assert after.children == [Element(ns, "ZUSDRA", "", patched)];
  }

  /** ... and prints `Patching` once per entry. */
  lemma AddIdNotices(k: Kedu.KeduDocument, ns: string, entries: seq<Element>, raw: string)
    requires k.tree == Some(Declaration(ns, entries)) && ns != ""
    requires AllUserEntries(ns, entries) && AllNeedPatch(entries)
    requires Kedu.AddIdDocument(k, raw).result.Ok?
    ensures Kedu.AddIdDocument(k, raw).notices == seq(|entries|, _ => Kedu.Patching)
  {
    var root := Declaration(ns, entries);
    DeclarationEntries(ns, entries);
    var ps := Kedu.Entries(root);
    var notices := Kedu.AddIdDocument(k, raw).notices;
    Kedu.AddIdDocumentNotices(k, root, raw);
    BlankNotices(ns, entries, notices);
  }

  /** Over blank entries the notice of every entry is `Patching`. */
  lemma BlankNotices(ns: string, entries: seq<Element>, notices: seq<Kedu.Notice>)
    requires ns != "" && AllUserEntries(ns, entries) && AllNeedPatch(entries)
    requires Kedu.Entries(Declaration(ns, entries)) == Column(0, |entries|)
    requires Kedu.NoticesMatch(Declaration(ns, entries), Column(0, |entries|), notices)
    ensures notices == seq(|entries|, _ => Kedu.Patching)
  {
    var root := Declaration(ns, entries);
    forall j | 0 <= j < |entries|
      ensures notices[j] == Kedu.Patching
    {
      assert notices[j] == Kedu.NoticeFor(root, Pos(0, j));
      assert Kedu.NeedsPatch(root, Pos(0, j));
    }
  }

  /** `count` copies of an entry. */
  function Copies(e: Element, count: nat): seq<Element>
  {
    seq(count, _ => e)
  }

  lemma BlankCopies(ns: string, users: nat)
    ensures AllUserEntries(ns, Copies(OriginalEntry(ns), users))
    ensures AllNeedPatch(Copies(OriginalEntry(ns), users))
  {
    OriginalEntryNeedsPatch(ns);
  }

  /** `add_id_document` on a loaded declaration of blank test entries. */
  lemma AddIdOnBlankEntries(k: Kedu.KeduDocument, ns: string, users: nat, raw: string, typeCode: string)
    requires k.tree == Some(Declaration(ns, Copies(OriginalEntry(ns), users))) && ns != ""
    requires users > 0 && Classify(raw) == Ok(typeCode) && XmlText(Normalise(raw))
    ensures var s := Kedu.AddIdDocument(k, raw);
      && s.result.Ok? && s.state.patched
      && s.state.path == k.path
      && s.state.tree == Some(Declaration(ns, Copies(PatchedTestEntry(ns, typeCode, Normalise(raw)), users)))
      && s.notices == seq(users, _ => Kedu.Patching)
  {
    var entries := Copies(OriginalEntry(ns), users);
    var s := Kedu.AddIdDocument(k, raw);
    BlankCopies(ns, users);
    assert s.result.Ok? && s.state.patched by {
      AddIdSucceeds(k, ns, entries, raw);
    }
    assert s.state.tree == Some(Declaration(ns, Copies(PatchedTestEntry(ns, typeCode, Normalise(raw)), users))) by {
      AddIdTree(k, ns, entries, raw);
      CopiesPatched(ns, users, typeCode, Normalise(raw));
    }
    assert s.notices == seq(users, _ => Kedu.Patching) by {
      AddIdNotices(k, ns, entries, raw);
    }
  }

  /** The unit tests `test_add_id`, `test_add_id_two_users` and
      `test_save_patched_xml`: a declaration with one or more blank entries is
      loaded and a recognised number that XML allows is added; every entry
      then holds the type
      code and the normalised number, one `Patching` is printed per entry,
      and `save` writes the patched tree to the path it is given. */
  lemma AddIdTestCase(ns: string, path: Path, users: nat, raw: string, typeCode: string, out: string)
    requires ns != "" && users > 0 && Classify(raw) == Ok(typeCode) && XmlText(Normalise(raw)) && out != ""
    ensures var k := Kedu.Load(Kedu.Initial, path, Some(Declaration(ns, Copies(OriginalEntry(ns), users)))).state;
      var s := Kedu.AddIdDocument(k, raw);
      var patched := Declaration(ns, Copies(PatchedTestEntry(ns, typeCode, Normalise(raw)), users));
      && s.result.Ok? && s.state.patched
      && s.state.tree == Some(patched)
      && s.notices == seq(users, _ => Kedu.Patching)
      && Kedu.Save(s.state, Some(out), true).result == Ok(Kedu.Written(Parse(out), patched))
  {
    var root := Declaration(ns, Copies(OriginalEntry(ns), users));
    LoadedState(path, root);
    var k := Kedu.KeduDocument(Some(path), Some(root), false);
    AddIdOnBlankEntries(k, ns, users, raw, typeCode);
  }

  /** Loading a parsed tree into a fresh object keeps the path and the tree. */
  lemma LoadedState(path: Path, root: Element)
    ensures Kedu.Load(Kedu.Initial, path, Some(root)).state == Kedu.KeduDocument(Some(path), Some(root), false)
  {
  }

  lemma CopiesPatched(ns: string, users: nat, typeCode: string, number: string)
    ensures PatchedEntries(Copies(OriginalEntry(ns), users), typeCode, number)
         == Copies(PatchedTestEntry(ns, typeCode, number), users)
  {
    PatchOriginalEntry(ns, typeCode, number);
  }

  /** The unit test `test_skip_patching_if_already_patched`: an entry that
      already holds both fields is skipped with a warning naming it and its
      parent, the tree is left alone, and `save` writes nothing. */
  lemma SkipTestCase(ns: string, path: Path, typeCode: string, number: string, raw: string,
                     out: Option<string>, backup: bool)
    requires ns != ""
    ensures var root := Declaration(ns, [ParsedPatchedEntry(ns, typeCode, number)]);
      var k := Kedu.Load(Kedu.Initial, path, Some(root)).state;
      var s := Kedu.AddIdDocument(k, raw);
      && s.result.Ok? && !s.state.patched
      && s.state.tree == Some(root)
      && s.notices == [Kedu.AlreadyPatched("II", "ZUSDRA")]
      && Kedu.Save(s.state, out, backup) == Kedu.Step(s.state, Ok(Kedu.NotWritten), [Kedu.NothingChanged])
  {
    var root := Declaration(ns, [ParsedPatchedEntry(ns, typeCode, number)]);
    LoadedState(path, root);
    SkipOnPatchedEntry(Kedu.KeduDocument(Some(path), Some(root), false), ns, typeCode, number, raw);
  }

  /** The parsed patched entry holds both fields: `{ns}p4` ends with `p4`
      and `{ns}p5` with `p5`. */
  lemma ParsedPatchedEntryHasFields(ns: string, typeCode: string, number: string)
    ensures HasIdFields(ParsedPatchedEntry(ns, typeCode, number))
  {
    var e := ParsedPatchedEntry(ns, typeCode, number);
    TagSuffixIsLocalSuffix(e.children[3], "p4");
    TagSuffixIsLocalSuffix(e.children[4], "p5");
    assert EndsWith(Tag(e.children[3]), "p4");
    assert EndsWith(Tag(e.children[4]), "p5");
    AnyTagEndsWithSome(e.children, "p4");
    AnyTagEndsWithSome(e.children, "p5");
  }

  /** `add_id_document` on a loaded declaration holding the patched entry. */
  lemma SkipOnPatchedEntry(k: Kedu.KeduDocument, ns: string, typeCode: string, number: string, raw: string)
    requires k.tree == Some(Declaration(ns, [ParsedPatchedEntry(ns, typeCode, number)])) && ns != ""
    ensures var s := Kedu.AddIdDocument(k, raw);
      && s.result.Ok? && !s.state.patched
      && s.state == k.(patched := false)
      && s.notices == [Kedu.AlreadyPatched("II", "ZUSDRA")]
  {
    var root := Declaration(ns, [ParsedPatchedEntry(ns, typeCode, number)]);
    DeclarationEntries(ns, [ParsedPatchedEntry(ns, typeCode, number)]);
    var ps := Kedu.Entries(root);
    assert ps == [Pos(0, 0)];
    ParsedPatchedEntryHasFields(ns, typeCode, number);
    assert HasIdFields(At(root, ps[0]));
    Kedu.PatchAllSkipped(root, ps, Classify(raw), Normalise(raw));
    Kedu.AddIdDocumentNotices(k, root, raw);
  }

  /** The unit tests `test_malformed_document` and `test_dont_save_not_patched_xml`:
      loading a declaration without entries announces the file and fails, one
      with an entry loads, and saving an unpatched load writes nothing.  A
      declaration without a namespace has no entry the XPath can select, so it
      fails to load even with an entry. */
  lemma LoadTestCases(ns: string, path: Path, out: Option<string>, backup: bool)
    ensures var empty := Kedu.Load(Kedu.Initial, path, Some(Declaration(ns, [])));
      empty.result == Err(NoUserEntries) && empty.notices == [Kedu.Opening(path)]
    ensures var one := Kedu.Load(Kedu.Initial, path, Some(Declaration(ns, [OriginalEntry(ns)])));
      && (ns != "" ==> one.result == Ok(()) && Kedu.Save(one.state, out, backup).result == Ok(Kedu.NotWritten))
      && (ns == "" ==> one.result == Err(NoUserEntries))
      && one.notices == [Kedu.Opening(path)]
  {
    if ns != "" {
      assert Selected(Declaration(ns, [OriginalEntry(ns)]), ns, None, Pos(0, 0));
    }
  }

  /** The blank test entry with only the document type inserted. */
  function HalfPatchedTestEntry(ns: string, typeCode: string): Element
  {
    Element(ns, "II", "", [P(ns, "p1"), P(ns, "p2"), P(ns, "p3"), Field("p4", typeCode),
                           P(ns, "p6"), P(ns, "p7"), P(ns, "p8"), P(ns, "p9")])
  }

  /** An ID card number followed by a control character XML does not allow. */
  const NumberWithControl: string := "abc123456\U{1}"

  lemma NormaliseNumberWithControl()
    ensures Normalise(NumberWithControl) == "ABC123456\U{1}"
  {
    NormalisesTo(NumberWithControl, "ABC123456\U{1}");
  }

  lemma NumberWithControlShape()
    ensures IdCardShape("ABC123456\U{1}") && !XmlText("ABC123456\U{1}")
  {
    assert !XmlChar("ABC123456\U{1}"[9]);
  }

  /** The number is recognised as an ID card but cannot be written. */
  lemma NumberWithControlClassified()
    ensures Classify(NumberWithControl) == Ok(IdCardType)
    ensures !XmlText(Normalise(NumberWithControl))
  {
    NormaliseNumberWithControl();
    NumberWithControlShape();
  }

  /** The blank entry with the type code inserted is the half-patched one. */
  lemma TypeFieldOnOriginalEntry(ns: string, typeCode: string)
    ensures WithTypeField(OriginalEntry(ns), typeCode) == HalfPatchedTestEntry(ns, typeCode)
  {
    var e := OriginalEntry(ns);
    assert e.children[..3] + [Field("p4", typeCode)] + e.children[3..]
        == HalfPatchedTestEntry(ns, typeCode).children;
  }

  /** `add_id_document` on a loaded declaration holding one blank entry, with
      a recognised number that XML does not allow: lxml's error is raised after
      `p4` went in and the flag was set. */
  lemma RejectedNumberOnBlankEntry(k: Kedu.KeduDocument, ns: string, raw: string)
    requires k.tree == Some(Declaration(ns, [OriginalEntry(ns)])) && ns != ""
    requires Classify(raw).Ok? && !XmlText(Normalise(raw))
    ensures var s := Kedu.AddIdDocument(k, raw);
      && s.result == Err(InvalidXmlText) && s.state.patched
      && s.state.tree == Some(Declaration(ns, [HalfPatchedTestEntry(ns, Classify(raw).value)]))
      && s.notices == [Kedu.Patching]
  {
    var root := Declaration(ns, [OriginalEntry(ns)]);
    DeclarationEntries(ns, [OriginalEntry(ns)]);
    assert Column(0, 1) == [Pos(0, 0)];
    assert Kedu.UserEntries(root) == Ok([Pos(0, 0)]);
    Kedu.TypeCodesWritable(raw);
    RejectedNumberLoop(ns, Classify(raw), Normalise(raw));
  }

  /** The loop on a declaration with one blank entry, for a document type
      that can be written and a number that cannot. */
  lemma RejectedNumberLoop(ns: string, docType: Result<string, Error>, number: string)
    requires Kedu.TypeWritable(docType) && !XmlText(number)
    ensures Kedu.PatchEntries(Declaration(ns, [OriginalEntry(ns)]), [Pos(0, 0)], docType, number)
         == Kedu.PatchRun(Declaration(ns, [HalfPatchedTestEntry(ns, docType.value)]), [Kedu.Patching], true,
                          Some(InvalidXmlText))
  {
    var root := Declaration(ns, [OriginalEntry(ns)]);
    OriginalEntryNeedsPatch(ns);
    var half := HalfPatchedTestEntry(ns, docType.value);
    TypeFieldOnOriginalEntry(ns, docType.value);
    assert [OriginalEntry(ns)][0 := half] == [half];
    assert root.children[0 := Element(ns, "ZUSDRA", "", [half])] == [Element(ns, "ZUSDRA", "", [half])];
    assert Replace(root, Pos(0, 0), half) == Declaration(ns, [half]);
  }

  /** Adding a recognised number that XML does not allow, such as
      `NumberWithControl`, to a freshly loaded declaration with one blank entry
      fails, yet `save` then writes the entry holding the type code alone. */
  lemma RejectedNumberCase(ns: string, path: Path, out: string, raw: string)
    requires ns != "" && out != ""
    requires Classify(raw).Ok? && !XmlText(Normalise(raw))
    ensures var k := Kedu.Load(Kedu.Initial, path, Some(Declaration(ns, [OriginalEntry(ns)]))).state;
      var s := Kedu.AddIdDocument(k, raw);
      var half := Declaration(ns, [HalfPatchedTestEntry(ns, Classify(raw).value)]);
      && s.result == Err(InvalidXmlText) && s.state.patched
      && s.state.tree == Some(half)
      && s.notices == [Kedu.Patching]
      && Kedu.Save(s.state, Some(out), true).result == Ok(Kedu.Written(Parse(out), half))
  {
    var root := Declaration(ns, [OriginalEntry(ns)]);
    LoadedState(path, root);
    var k := Kedu.KeduDocument(Some(path), Some(root), false);
    RejectedNumberOnBlankEntry(k, ns, raw);
  }

  // ---------------------------------------------------------------------------
  // The older tool
  // ---------------------------------------------------------------------------

  /** The unit tests of the older tool: a foreign namespace is refused, an
      empty declaration has no entry to take, and the blank entry gains `p4`
      and `p5` in place unless one of the texts is refused. */
  lemma DrafixTestCases(foreign: string, ns: string, documentType: string, documentId: string)
    requires foreign != Drafix.Kedu55Namespace
    ensures Drafix.FindUserInfo(Declaration(foreign, []), Drafix.Kedu55Namespace)
         == Err(NamespaceMismatch(foreign, Drafix.Kedu55Namespace))
    ensures Drafix.FindUserInfo(Declaration(ns, []), ns) == Err(MissingUserEntry)
    ensures Drafix.FindUserInfo(Declaration("", [OriginalEntry("")]), Drafix.Kedu55Namespace)
         == Err(NamespaceMismatch("", Drafix.Kedu55Namespace))
    ensures ns != "" ==> Drafix.FindUserInfo(Declaration(ns, [OriginalEntry(ns)]), ns) == Ok(Pos(0, 0))
    ensures ns == "" ==> Drafix.FindUserInfo(Declaration(ns, [OriginalEntry(ns)]), ns) == Err(MissingUserEntry)
    ensures XmlText(documentType) && XmlText(documentId) ==>
      Drafix.AddUserIdData(OriginalEntry(ns), documentType, documentId)
         == Ok(PatchedTestEntry(ns, documentType, documentId))
    ensures !XmlText(documentId) ==>
      Drafix.AddUserIdData(OriginalEntry(ns), documentType, documentId) == Err(InvalidXmlText)
  {
    var root := Declaration(ns, [OriginalEntry(ns)]);
    if ns != "" {
      assert Selected(root, ns, Some("ZUSDRA"), Pos(0, 0));
    }
    PatchOriginalEntry(ns, documentType, documentId);
  }

  // ---------------------------------------------------------------------------
  // Output file names
  // ---------------------------------------------------------------------------

  lemma KeduXmlSplit()
    ensures Stem("kedu.xml") == "kedu" && Suffix("kedu.xml") == ".xml"
  {
    var i := LastIndexOf("kedu.xml", '.');
    assert i == 4 by {
      assert "kedu.xml"[4] == '.';
    }
  }

  /** The `_new` sibling of `kedu.xml`, in whatever directory it is. */
  lemma BackupExample(dir: string)
    ensures BackupPath(Path(dir, "kedu.xml")) == Path(dir, "kedu_new.xml")
  {
    KeduXmlSplit();
  }
}
