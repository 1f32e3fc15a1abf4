/** The older single-entry tool: check the root namespace against the KEDU 5.5
    schema, take the first `II` under `KEDU/ZUSDRA`, insert the two fields
    unconditionally, and write to the `_new` sibling or in place.

    Command-line parsing, help text and console output are not modelled; the
    decisions of `main` are (`Fix`). */
module Drafix {
  import opened Wrappers
  import opened Errors
  import opened Paths
  import opened XmlTree
  import Kedu

  /** `KEDU_5_5_NAMESPACE`. */
  const Kedu55Namespace: string := "http://www.zus.pl/2022/KEDU_5_5"

  /** `find_user_info(document, expected_namespace)`: the namespace must match;
      then the first `II` under `KEDU/ZUSDRA` is taken, and indexing an empty
      selection raises. */
  function FindUserInfo(root: Element, expected: string): (r: Result<Pos, Error>)
    ensures root.ns != expected ==> r == Err(NamespaceMismatch(root.ns, expected))
    ensures root.ns == expected ==> (r.Ok? <==> exists p :: Selected(root, expected, Some("ZUSDRA"), p))
    ensures root.ns == expected && r.Err? ==> r.error == MissingUserEntry
    ensures r.Ok? ==> Selected(root, expected, Some("ZUSDRA"), r.value)
    ensures r.Ok? ==> forall q :: Selected(root, expected, Some("ZUSDRA"), q) ==> q == r.value || Before(r.value, q)
  {
    if root.ns != expected then Err(NamespaceMismatch(root.ns, expected))
    else
      var ps := Select(root, expected, Some("ZUSDRA"));
      if |ps| == 0 then Err(MissingUserEntry)
      else
        assert Selected(root, expected, Some("ZUSDRA"), ps[0]);
        Ok(ps[0])
  }

  /** The entry the older tool picks is one the patcher would visit too: the
      `ZUSDRA` container is one of the containers `zus:*` matches. */
  lemma FoundEntryIsUserEntry(root: Element, expected: string)
    requires FindUserInfo(root, expected).Ok?
    ensures FindUserInfo(root, expected).value in Select(root, root.ns, None)
  {
    var p := FindUserInfo(root, expected).value;
    assert Selected(root, root.ns, None, p);
  }

  /** `add_user_id_data(element, document_type, document_id)`: always inserts
      `p4` at index 3 and `p5` at index 4, whatever the entry already holds.
      Setting a text that holds a character XML does not allow raises lxml's
      error; the caller then stops without writing anything, so the entry's
      state at that point is not returned. */
  function AddUserIdData(e: Element, documentType: string, documentId: string): (r: Result<Element, Error>)
    ensures r.Err? <==> !XmlText(documentType) || !XmlText(documentId)
    ensures r.Err? ==> r.error == InvalidXmlText
    ensures r.Ok? ==> SameHead(r.value, e) && |r.value.children| == |e.children| + 2
    ensures r.Ok? && |e.children| >= 3 ==>
      && r.value.children[3] == Field("p4", documentType)
      && r.value.children[4] == Field("p5", documentId)
      && RemoveAt(RemoveAt(r.value.children, 3), 3) == e.children
  {
    if !XmlText(documentType) || !XmlText(documentId) then Err(InvalidXmlText)
    else if |e.children| >= 3 then
      RemovePair(e.children, Field("p4", documentType), Field("p5", documentId));
      Ok(WithIdFields(e, documentType, documentId))
    else
      Ok(WithIdFields(e, documentType, documentId))
  }

  /** Removing twice at index 3 undoes inserting a pair there. */
  lemma RemovePair<T>(c: seq<T>, x: T, y: T)
    requires |c| >= 3
    ensures RemoveAt(RemoveAt(c[..3] + [x, y] + c[3..], 3), 3) == c
  {
    var r := c[..3] + [x, y] + c[3..];
    assert RemoveAt(r, 3) == c[..3] + [y] + c[3..];
  }

  /** Inserting a second pair at index 3 puts it in front of the first. */
  lemma InsertPairTwice<T>(c: seq<T>, a: T, b: T, x: T, y: T)
    requires |c| >= 3
    ensures var c1 := c[..3] + [a, b] + c[3..];
      (c1[..3] + [x, y] + c1[3..])[3..7] == [x, y, a, b]
  {
    var c1 := c[..3] + [a, b] + c[3..];
    assert c1[..3] == c[..3];
    assert c1[3..5] == [a, b];
  }

  /** With no skip check, adding twice duplicates the fields: the second pair
      lands in front of the first. */
  lemma AddTwiceDuplicates(e: Element, t1: string, id1: string, t2: string, id2: string)
    requires |e.children| >= 3
    ensures var r1 := AddUserIdData(e, t1, id1);
      r1.Ok? ==>
        var r := AddUserIdData(r1.value, t2, id2);
        r.Ok? ==>
          && |r.value.children| == |e.children| + 4
          && r.value.children[3..7] == [Field("p4", t2), Field("p5", id2), Field("p4", t1), Field("p5", id1)]
  {
    InsertPairTwice(e.children, Field("p4", t1), Field("p5", id1), Field("p4", t2), Field("p5", id2));
  }

  /** Python truthiness of an optional string argument: given and non-empty. */
  predicate Given(arg: Option<string>)
  {
    arg.Some? && arg.value != ""
  }

  /** The argument check of `main`: exactly one of `--id` and `--passport` is required;
      the type code is `'1'` for `--id` and `'2'` for `--passport`, and the
      number is taken verbatim from whichever was given. */
  function ChooseDocument(id: Option<string>, passport: Option<string>): (r: Result<(string, string), Error>)
    ensures r.Ok? <==> Given(id) != Given(passport)
    ensures r.Err? ==> r.error == Usage
    ensures r.Ok? && Given(id) ==> r.value == ("1", id.value)
    ensures r.Ok? && Given(passport) ==> r.value == ("2", passport.value)
  {
    if (Given(id) && Given(passport)) || !(Given(id) || Given(passport)) then Err(Usage)
    else
      var documentType := if Given(id) then "1" else "2";
      var documentId := if Given(id) then id.value else passport.value;
      Ok((documentType, documentId))
  }

  /** The output file of `main`: the file itself with `--no-backup`, otherwise the
      `_new` sibling. */
  function OutputPath(dra: Path, noBackup: bool): (out: Path)
    ensures noBackup ==> out == dra
    ensures !noBackup ==> out.dir == dra.dir && out != dra && out.name == BackupName(dra.name)
  {
    if noBackup then dra else BackupPath(dra)
  }

  /** Some `II` lies under a `KEDU/ZUSDRA` of the KEDU 5.5 schema. */
  ghost predicate HasZusdraEntry(root: Element)
  {
    exists p :: Selected(root, Kedu55Namespace, Some("ZUSDRA"), p)
  }

  /** What a successful run of `main` writes, and where. */
  datatype FixOutput = FixOutput(dest: Path, document: Element)

  /** The decisions of `main`: check the arguments, load the file (`parsed` is
      absent when it cannot be read as XML), find the entry, insert the fields
      and choose the output file.  It fails, in this order, on bad arguments,
      an unreadable file, a foreign namespace, a missing entry and a number
      holding a character XML does not allow; otherwise the first `ZUSDRA`
      entry, and nothing else, gains the two fields, with the number exactly
      as typed. */
  function Fix(draFile: string, id: Option<string>, passport: Option<string>, noBackup: bool,
               parsed: Option<Element>): (r: Result<FixOutput, Error>)
    ensures Given(id) == Given(passport) ==> r == Err(Usage)
    ensures Given(id) != Given(passport) && parsed.None? ==> r == Err(MalformedXml)
    ensures Given(id) != Given(passport) && parsed.Some? && parsed.value.ns != Kedu55Namespace ==>
      r == Err(NamespaceMismatch(parsed.value.ns, Kedu55Namespace))
    ensures Given(id) != Given(passport) && parsed.Some? && parsed.value.ns == Kedu55Namespace ==>
      (!HasZusdraEntry(parsed.value) ==> r == Err(MissingUserEntry))
    ensures Given(id) != Given(passport) && parsed.Some? && parsed.value.ns == Kedu55Namespace ==>
      (HasZusdraEntry(parsed.value) && !XmlText(if Given(id) then id.value else passport.value) ==>
         r == Err(InvalidXmlText))
    ensures r.Ok? <==>
      Given(id) != Given(passport) && parsed.Some? && parsed.value.ns == Kedu55Namespace
      && HasZusdraEntry(parsed.value) && XmlText(if Given(id) then id.value else passport.value)
    ensures r.Ok? ==>
      var root := parsed.value;
      var p := FindUserInfo(root, Kedu55Namespace).value;
      && r.value.dest == OutputPath(Parse(draFile), noBackup)
      && Frame(root, r.value.document, [p])
      && ValidPos(r.value.document, p)
      && At(r.value.document, p)
         == WithIdFields(At(root, p), if Given(id) then "1" else "2", if Given(id) then id.value else passport.value)
  {
    var (documentType, documentId) :- ChooseDocument(id, passport);
    var root :- if parsed.Some? then Ok(parsed.value) else Err(MalformedXml);
    assert XmlText(documentType);
    var patched :- PatchDocument(root, documentType, documentId);
    Ok(FixOutput(OutputPath(Parse(draFile), noBackup), patched))
  }

  /** The tree part of `main`: find the entry in the parsed document and
      insert the fields into it.  Only that entry changes. */
  function PatchDocument(root: Element, documentType: string, documentId: string): (r: Result<Element, Error>)
    ensures root.ns != Kedu55Namespace ==> r == Err(NamespaceMismatch(root.ns, Kedu55Namespace))
    ensures root.ns == Kedu55Namespace && !HasZusdraEntry(root) ==> r == Err(MissingUserEntry)
    ensures root.ns == Kedu55Namespace && HasZusdraEntry(root) && !(XmlText(documentType) && XmlText(documentId)) ==>
      r == Err(InvalidXmlText)
    ensures r.Ok? <==>
      root.ns == Kedu55Namespace && HasZusdraEntry(root) && XmlText(documentType) && XmlText(documentId)
    ensures r.Ok? ==>
      var p := FindUserInfo(root, Kedu55Namespace).value;
      && Frame(root, r.value, [p]) && ValidPos(r.value, p)
      && At(r.value, p) == WithIdFields(At(root, p), documentType, documentId)
  {
    var p :- FindUserInfo(root, Kedu55Namespace);
    var entry :- AddUserIdData(At(root, p), documentType, documentId);
    Ok(Replace(root, p, entry))
  }

  /** The older tool and the patcher name the output file alike: `--no-backup`
      corresponds to `save(backup=False)` with no explicit destination. */
  lemma SameOutputRule(dra: Path, noBackup: bool)
    ensures Kedu.Destination(Some(dra), None, !noBackup) == Some(OutputPath(dra, noBackup))
  {
  }
}
