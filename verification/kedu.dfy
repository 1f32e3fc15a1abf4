/** The ZUS KEDU patcher: a `KEDU` object holding the path it was loaded from,
    the parsed tree and the `patched` flag; `load`, `add_id_document` and
    `save` are steps from one object state to the next.

    Every step returns the state afterwards, the value returned or the error
    raised, and the console notices it emitted.  Reading and parsing the file
    is a parameter (`parsed`, absent when the file cannot be read as XML), and
    `save` reports the destination and content it would write. */
module Kedu {
  import opened Wrappers
  import opened Errors
  import opened Paths
  import opened XmlTree
  import IdentityDocuments

  /** The console notices of the patcher. */
  datatype Notice =
    | Opening(path: Path)
    | Patching
    | AlreadyPatched(entry: string, parent: string)
    | NothingChanged
    | WritingTo(path: Path)

  /** A `KEDU` instance. */
  datatype KeduDocument = KeduDocument(path: Option<Path>, tree: Option<Element>, patched: bool)

  /** A freshly constructed instance: nothing loaded, `patched` false. */
  const Initial: KeduDocument := KeduDocument(None, None, false)

  /** The state after a call, what it returned or raised, and what it printed. */
  datatype Step<T> = Step(state: KeduDocument, result: Result<T, Error>, notices: seq<Notice>)

  /** What `save` did: nothing, or wrote `content` to `dest`. */
  datatype SaveOutcome = NotWritten | Written(dest: Path, content: Element)

  // ---------------------------------------------------------------------------
  // `_parse_user_data`
  // ---------------------------------------------------------------------------

  /** The `zus:II` grandchildren of a `zus:KEDU` root that the loader's XPath
      selects, with `zus` bound to the namespace of the root element. */
  function Entries(root: Element): seq<Pos>
  {
    Select(root, root.ns, None)
  }

  /** The user id data entries of a document, selected in the namespace of its
      own root element (never compared against a fixed schema namespace); at
      least one is required, so a root without a namespace, for which the
      selection is empty, is refused. */
  function UserEntries(root: Element): (r: Result<seq<Pos>, Error>)
    ensures r.Ok? <==> exists p :: Selected(root, root.ns, None, p)
    ensures r.Err? ==> r.error == NoUserEntries
    ensures root.ns == "" ==> r == Err(NoUserEntries)
    ensures r.Ok? ==> |r.value| > 0 && InDocumentOrder(r.value)
    ensures r.Ok? ==> forall k :: 0 <= k < |r.value| ==> Selected(root, root.ns, None, r.value[k])
    ensures r.Ok? ==> forall p :: Selected(root, root.ns, None, p) ==> p in r.value
  {
    var ps := Entries(root);
    if |ps| == 0 then Err(NoUserEntries)
    else
      assert Selected(root, root.ns, None, ps[0]);
      Ok(ps)
  }

  // ---------------------------------------------------------------------------
  // The loop of `add_id_document`
  // ---------------------------------------------------------------------------

  predicate AllValid(root: Element, ps: seq<Pos>)
  {
    forall k :: 0 <= k < |ps| ==> ValidPos(root, ps[k])
  }

  /** The entry at `p` still lacks `p4` or `p5`. */
  predicate NeedsPatch(root: Element, p: Pos)
    requires ValidPos(root, p)
  {
    !HasIdFields(At(root, p))
  }

  /** Some entry at `ps` still needs the fields. */
  predicate AnyNeedsPatch(root: Element, ps: seq<Pos>)
    requires AllValid(root, ps)
  {
    CountNeedsPatch(root, ps) > 0
  }

  /** Counting the entries that need the fields is non-zero exactly when one
      of them does. */
  lemma {:induction false} AnyNeedsPatchSome(root: Element, ps: seq<Pos>)
    requires AllValid(root, ps)
    ensures AnyNeedsPatch(root, ps) <==> exists k :: 0 <= k < |ps| && NeedsPatch(root, ps[k])
    decreases |ps|
  {
    if |ps| > 0 {
      AnyNeedsPatchSome(root, ps[1..]);
      if exists k :: 0 <= k < |ps| && NeedsPatch(root, ps[k]) {
        var k :| 0 <= k < |ps| && NeedsPatch(root, ps[k]);
        if k > 0 {
          assert ps[1..][k - 1] == ps[k];
        }
      }
      if AnyNeedsPatch(root, ps[1..]) {
        var j :| 0 <= j < |ps[1..]| && NeedsPatch(root, ps[1..][j]);
        assert ps[j + 1] == ps[1..][j];
      }
    }
  }

  /** The document type was determined and can be set as element text. */
  predicate TypeWritable(docType: Result<string, Error>)
  {
    docType.Ok? && XmlText(docType.value)
  }

  /** Both values the loop writes can be set as element text. */
  predicate Writable(docType: Result<string, Error>, number: string)
  {
    TypeWritable(docType) && XmlText(number)
  }

  /** What the loop raises when the values cannot both be written: the error
      of reading the document type, otherwise lxml's. */
  function WriteError(docType: Result<string, Error>): (e: Error)
    ensures docType.Err? ==> e == docType.error
    ensures docType.Ok? ==> e == InvalidXmlText
  {
    if docType.Err? then docType.error else InvalidXmlText
  }

  /** The entry with the document type and number inserted. */
  function PatchedEntry(e: Element, docType: Result<string, Error>, number: string): Element
    requires docType.Ok?
  {
    WithIdFields(e, docType.value, number)
  }

  /** The notice the loop prints for the entry at `p` when nothing fails:
      `Patching` exactly for an entry lacking a field, otherwise the warning
      naming the entry and its parent. */
  function NoticeFor(root: Element, p: Pos): (n: Notice)
    requires ValidPos(root, p)
    ensures n == Patching <==> NeedsPatch(root, p)
    ensures n != Patching ==> n == AlreadyPatched(At(root, p).local, Parent(root, p).local)
  {
    if NeedsPatch(root, p) then Patching else AlreadyPatched(At(root, p).local, Parent(root, p).local)
  }

  /** How the loop ended: the tree, the notices, the flag, and the error raised
      if it stopped early. */
  datatype PatchRun = PatchRun(tree: Element, notices: seq<Notice>, patched: bool, failure: Option<Error>)

  /** The `for` loop over the entries at `ps`.  An entry holding both fields is
      skipped with a warning; otherwise `Patching` is printed and the document
      type is read (which may raise), then `p4` is created with it as text and
      inserted, the flag is set, and `p5` follows with the number.  Setting
      either text raises when it holds a character XML does not allow: for the
      number that happens after `p4` and the flag are already in place.  The
      loop prints at most one notice per entry, and one per entry when it
      completes. */
  function PatchEntries(root: Element, ps: seq<Pos>, docType: Result<string, Error>, number: string): (r: PatchRun)
    requires AllValid(root, ps)
    ensures |r.notices| <= |ps|
    ensures r.failure.None? ==> |r.notices| == |ps|
    decreases |ps|
  {
    if ps == [] then PatchRun(root, [], false, None)
    else
      var p := ps[0];
      var e := At(root, p);
      if HasIdFields(e) then
        var rest := PatchEntries(root, ps[1..], docType, number);
        rest.(notices := [AlreadyPatched(e.local, Parent(root, p).local)] + rest.notices)
      else if !TypeWritable(docType) then
        PatchRun(root, [Patching], false, Some(WriteError(docType)))
      else if !XmlText(number) then
        PatchRun(Replace(root, p, WithTypeField(e, docType.value)), [Patching], true, Some(InvalidXmlText))
      else
        var root' := Replace(root, p, WithIdFields(e, docType.value, number));
        var rest := PatchEntries(root', ps[1..], docType, number);
        PatchRun(rest.tree, [Patching] + rest.notices, true, rest.failure)
  }

  /** The loop only touches the children of the entries it visits. */
  lemma {:induction false} PatchFrame(root: Element, ps: seq<Pos>, docType: Result<string, Error>, number: string)
    requires AllValid(root, ps)
    ensures Frame(root, PatchEntries(root, ps, docType, number).tree, ps)
    decreases |ps|
  {
    if ps == [] {
      FrameRefl(root, ps);
    } else {
      var p := ps[0];
      var e := At(root, p);
      assert [p] + ps[1..] == ps;
      if HasIdFields(e) {
        PatchFrame(root, ps[1..], docType, number);
        FrameRefl(root, [p]);
        FrameTrans(root, root, PatchEntries(root, ps[1..], docType, number).tree, [p], ps[1..]);
      } else if !TypeWritable(docType) {
        FrameRefl(root, ps);
      } else if !XmlText(number) {
        var r := Replace(root, p, WithTypeField(e, docType.value));
        FrameRefl(r, ps[1..]);
        FrameTrans(root, r, r, [p], ps[1..]);
      } else {
        var root' := Replace(root, p, PatchedEntry(e, docType, number));
        PatchFrame(root', ps[1..], docType, number);
        FrameTrans(root, root', PatchEntries(root', ps[1..], docType, number).tree, [p], ps[1..]);
      }
    }
  }

  /** The loop fails exactly when some entry still needs patching and the
      document type or the number cannot be written; the error is that of the
      document type if it has one, else lxml's.  A failure before `p4` is
      written leaves the tree as it was, and the flag ends up set exactly when
      some entry needed patching and the document type could be written. */
  lemma {:induction false} PatchOutcome(root: Element, ps: seq<Pos>, docType: Result<string, Error>, number: string)
    requires AllValid(root, ps)
    ensures var run := PatchEntries(root, ps, docType, number);
      && (run.failure.Some? <==> !Writable(docType, number) && AnyNeedsPatch(root, ps))
      && (run.failure.Some? ==> run.failure.value == WriteError(docType))
      && (run.failure.Some? && !TypeWritable(docType) ==> run.tree == root)
      && (run.patched <==> TypeWritable(docType) && AnyNeedsPatch(root, ps))
    decreases |ps|, 1
  {
    if ps != [] {
      if HasIdFields(At(root, ps[0])) {
        SkipOutcome(root, ps, docType, number);
      } else {
        InsertOutcome(root, ps, docType, number);
      }
    }
  }

  /** Past an entry holding both fields, some entry needs patching exactly
      when one of the rest does. */
  lemma AnyNeedsPatchTail(root: Element, ps: seq<Pos>)
    requires AllValid(root, ps) && |ps| > 0 && HasIdFields(At(root, ps[0]))
    ensures AnyNeedsPatch(root, ps) <==> AnyNeedsPatch(root, ps[1..])
  {
  }

  lemma {:induction false} SkipOutcome(root: Element, ps: seq<Pos>, docType: Result<string, Error>, number: string)
    requires AllValid(root, ps) && |ps| > 0 && HasIdFields(At(root, ps[0]))
    ensures var run := PatchEntries(root, ps, docType, number);
      && (run.failure.Some? <==> !Writable(docType, number) && AnyNeedsPatch(root, ps))
      && (run.failure.Some? ==> run.failure.value == WriteError(docType))
      && (run.failure.Some? && !TypeWritable(docType) ==> run.tree == root)
      && (run.patched <==> TypeWritable(docType) && AnyNeedsPatch(root, ps))
    decreases |ps|, 0
  {
    var rest := PatchEntries(root, ps[1..], docType, number);
    assert PatchEntries(root, ps, docType, number).tree == rest.tree;
    assert PatchEntries(root, ps, docType, number).failure == rest.failure;
    assert PatchEntries(root, ps, docType, number).patched == rest.patched;
    PatchOutcome(root, ps[1..], docType, number);
    AnyNeedsPatchTail(root, ps);
  }

  lemma {:induction false} InsertOutcome(root: Element, ps: seq<Pos>, docType: Result<string, Error>, number: string)
    requires AllValid(root, ps) && |ps| > 0 && !HasIdFields(At(root, ps[0]))
    ensures var run := PatchEntries(root, ps, docType, number);
      && (run.failure.Some? <==> !Writable(docType, number) && AnyNeedsPatch(root, ps))
      && (run.failure.Some? ==> run.failure.value == WriteError(docType))
      && (run.failure.Some? && !TypeWritable(docType) ==> run.tree == root)
      && (run.patched <==> TypeWritable(docType) && AnyNeedsPatch(root, ps))
    decreases |ps|, 0
  {
    assert NeedsPatch(root, ps[0]);
    if Writable(docType, number) {
      var root' := Replace(root, ps[0], PatchedEntry(At(root, ps[0]), docType, number));
      PatchOutcome(root', ps[1..], docType, number);
    }
  }

  /** What the loop leaves at `p`: the entry itself if it held both fields,
      and, if the loop completed, the patched entry otherwise. */
  predicate EntryOutcome(before: Element, after: Element, p: Pos, docType: Result<string, Error>, number: string, completed: bool)
    requires ValidPos(before, p)
  {
    && ValidPos(after, p)
    && (!NeedsPatch(before, p) ==> At(after, p) == At(before, p))
    && (NeedsPatch(before, p) && completed ==>
          docType.Ok? && At(after, p) == PatchedEntry(At(before, p), docType, number))
  }

  /** Positions in document order are distinct, so the first is not repeated. */
  lemma FirstNotInTail(ps: seq<Pos>)
    requires |ps| > 0 && InDocumentOrder(ps)
    ensures ps[0] !in ps[1..]
  {
    forall k | 0 <= k < |ps[1..]|
      ensures ps[1..][k] != ps[0]
    {
      assert Before(ps[0], ps[k + 1]);
    }
  }

  /** Entry by entry: an entry holding both fields is left exactly as it was,
      and, when the loop completes, every other entry is the patched entry. */
  lemma {:induction false} PatchEffect(root: Element, ps: seq<Pos>, docType: Result<string, Error>, number: string)
    requires AllValid(root, ps) && InDocumentOrder(ps)
    ensures var run := PatchEntries(root, ps, docType, number);
      forall k :: 0 <= k < |ps| ==> EntryOutcome(root, run.tree, ps[k], docType, number, run.failure.None?)
    decreases |ps|, 1
  {
    if ps != [] {
      if HasIdFields(At(root, ps[0])) {
        SkipEffect(root, ps, docType, number);
      } else if Writable(docType, number) {
        InsertEffect(root, ps, docType, number);
      } else if TypeWritable(docType) {
        RejectEffect(root, ps, docType, number);
      }
    }
  }

  /** When the number is refused at the first entry, only that entry changed. */
  lemma RejectEffect(root: Element, ps: seq<Pos>, docType: Result<string, Error>, number: string)
    requires AllValid(root, ps) && InDocumentOrder(ps) && |ps| > 0 && !HasIdFields(At(root, ps[0]))
    requires TypeWritable(docType) && !XmlText(number)
    ensures var run := PatchEntries(root, ps, docType, number);
      forall k :: 0 <= k < |ps| ==> EntryOutcome(root, run.tree, ps[k], docType, number, run.failure.None?)
  {
    var p := ps[0];
    var r := Replace(root, p, WithTypeField(At(root, p), docType.value));
    forall k | 0 <= k < |ps|
      ensures EntryOutcome(root, r, ps[k], docType, number, false)
    {
      FrameAt(root, r, [p], ps[k]);
      if k > 0 {
        assert Before(p, ps[k]);
      }
    }
  }

  lemma {:induction false} SkipEffect(root: Element, ps: seq<Pos>, docType: Result<string, Error>, number: string)
    requires AllValid(root, ps) && InDocumentOrder(ps) && |ps| > 0 && HasIdFields(At(root, ps[0]))
    ensures var run := PatchEntries(root, ps, docType, number);
      forall k :: 0 <= k < |ps| ==> EntryOutcome(root, run.tree, ps[k], docType, number, run.failure.None?)
    decreases |ps|, 0
  {
    var run := PatchEntries(root, ps, docType, number);
    var p, tail := ps[0], ps[1..];
    FirstNotInTail(ps);
    var rest := PatchEntries(root, tail, docType, number);
    assert run.tree == rest.tree && run.failure == rest.failure;
    PatchFrame(root, tail, docType, number);
    PatchEffect(root, tail, docType, number);
    FrameAt(root, run.tree, tail, p);
    forall k | 1 <= k < |ps|
      ensures EntryOutcome(root, run.tree, ps[k], docType, number, run.failure.None?)
    {
      assert ps[k] == tail[k - 1];
    }
  }

  lemma {:induction false} InsertEffect(root: Element, ps: seq<Pos>, docType: Result<string, Error>, number: string)
    requires AllValid(root, ps) && InDocumentOrder(ps) && |ps| > 0 && !HasIdFields(At(root, ps[0]))
    requires Writable(docType, number)
    ensures var run := PatchEntries(root, ps, docType, number);
      forall k :: 0 <= k < |ps| ==> EntryOutcome(root, run.tree, ps[k], docType, number, run.failure.None?)
    decreases |ps|, 0
  {
    var run := PatchEntries(root, ps, docType, number);
    var p, tail := ps[0], ps[1..];
    FirstNotInTail(ps);
    var root' := Replace(root, p, PatchedEntry(At(root, p), docType, number));
    var rest := PatchEntries(root', tail, docType, number);
    assert run.tree == rest.tree && run.failure == rest.failure;
    PatchFrame(root', tail, docType, number);
    PatchEffect(root', tail, docType, number);
    FrameAt(root', run.tree, tail, p);
    forall k | 1 <= k < |ps|
      ensures EntryOutcome(root, run.tree, ps[k], docType, number, run.failure.None?)
    {
      assert ps[k] == tail[k - 1];
      FrameAt(root, root', [p], ps[k]);
      assert EntryOutcome(root', run.tree, ps[k], docType, number, run.failure.None?);
    }
  }

  /** When the loop completes it prints one notice per entry, in order:
      `Patching` for an entry it patched, a warning naming the entry and its
      parent for one it skipped. */
  lemma {:induction false} PatchNotices(root: Element, ps: seq<Pos>, docType: Result<string, Error>, number: string)
    requires AllValid(root, ps) && InDocumentOrder(ps)
    requires PatchEntries(root, ps, docType, number).failure.None?
    ensures NoticesMatch(root, ps, PatchEntries(root, ps, docType, number).notices)
    decreases |ps|, 1
  {
    if ps != [] {
      if HasIdFields(At(root, ps[0])) {
        SkipNotices(root, ps, docType, number);
      } else {
        InsertNotices(root, ps, docType, number);
      }
    }
  }

  /** `notices` holds exactly one `NoticeFor` per entry of `ps`, in order. */
  predicate NoticesMatch(root: Element, ps: seq<Pos>, notices: seq<Notice>)
    requires AllValid(root, ps)
  {
    |notices| == |ps| && forall k :: 0 <= k < |ps| ==> notices[k] == NoticeFor(root, ps[k])
  }

  lemma {:induction false} SkipNotices(root: Element, ps: seq<Pos>, docType: Result<string, Error>, number: string)
    requires AllValid(root, ps) && InDocumentOrder(ps) && |ps| > 0 && HasIdFields(At(root, ps[0]))
    requires PatchEntries(root, ps, docType, number).failure.None?
    ensures NoticesMatch(root, ps, PatchEntries(root, ps, docType, number).notices)
    decreases |ps|, 0
  {
    var run := PatchEntries(root, ps, docType, number);
    var p, tail := ps[0], ps[1..];
    var rest := PatchEntries(root, tail, docType, number);
    assert run.notices == [NoticeFor(root, p)] + rest.notices;
    assert NoticesMatch(root, tail, rest.notices) by {
      PatchNotices(root, tail, docType, number);
    }
    forall k | 1 <= k < |ps|
      ensures run.notices[k] == NoticeFor(root, ps[k])
    {
      assert run.notices[k] == rest.notices[k - 1];
      assert ps[k] == tail[k - 1];
    }
  }

  lemma {:induction false} InsertNotices(root: Element, ps: seq<Pos>, docType: Result<string, Error>, number: string)
    requires AllValid(root, ps) && InDocumentOrder(ps) && |ps| > 0 && !HasIdFields(At(root, ps[0]))
    requires PatchEntries(root, ps, docType, number).failure.None?
    ensures NoticesMatch(root, ps, PatchEntries(root, ps, docType, number).notices)
    decreases |ps|, 0
  {
    var run := PatchEntries(root, ps, docType, number);
    var p, tail := ps[0], ps[1..];
    assert Writable(docType, number);
    var root' := Replace(root, p, PatchedEntry(At(root, p), docType, number));
    var rest := PatchEntries(root', tail, docType, number);
    assert run.notices == [Patching] + rest.notices && run.failure == rest.failure;
    assert NoticesMatch(root', tail, rest.notices) by {
      PatchNotices(root', tail, docType, number);
    }
    assert p !in tail by {
      FirstNotInTail(ps);
    }
    forall k | 1 <= k < |ps|
      ensures run.notices[k] == NoticeFor(root, ps[k])
    {
      assert run.notices[k] == rest.notices[k - 1];
      assert ps[k] == tail[k - 1];
      NoticeForFrame(root, root', [p], ps[k]);
    }
  }

  /** The notice for an entry outside a frame is the same on both sides. */
  lemma NoticeForFrame(a: Element, b: Element, ps: seq<Pos>, p: Pos)
    requires Frame(a, b, ps) && ValidPos(a, p) && p !in ps
    ensures ValidPos(b, p) && NoticeFor(b, p) == NoticeFor(a, p)
  {
    FrameAt(a, b, ps, p);
  }

  /** Skip warnings followed by one final `Patching`. */
  predicate StopsAfterSkips(notices: seq<Notice>)
  {
    && |notices| > 0 && notices[|notices| - 1] == Patching
    && forall k :: 0 <= k < |notices| - 1 ==> notices[k].AlreadyPatched?
  }

  /** A skip warning in front keeps that shape. */
  lemma SkipThenStop(n: Notice, notices: seq<Notice>)
    requires n.AlreadyPatched? && StopsAfterSkips(notices)
    ensures StopsAfterSkips([n] + notices)
  {
    var all := [n] + notices;
    forall k | 1 <= k < |all|
      ensures all[k] == notices[k - 1]
    {
    }
  }

  /** When the loop fails, the last notice is the `Patching` of the entry
      whose fields could not be written, and every earlier one is a skip
      warning. */
  lemma {:induction false} PatchFailureNotices(root: Element, ps: seq<Pos>, docType: Result<string, Error>, number: string)
    requires AllValid(root, ps)
    requires PatchEntries(root, ps, docType, number).failure.Some?
    ensures StopsAfterSkips(PatchEntries(root, ps, docType, number).notices)
    decreases |ps|
  {
    if HasIdFields(At(root, ps[0])) {
      SkipStep(root, ps, docType, number);
      PatchFailureNotices(root, ps[1..], docType, number);
      SkipThenStop(AlreadyPatched(At(root, ps[0]).local, Parent(root, ps[0]).local),
                   PatchEntries(root, ps[1..], docType, number).notices);
    } else {
      StopNotice(root, ps, docType, number);
    }
  }

  /** Skipping the first entry adds its warning in front and leaves the rest
      of the run to the remaining entries. */
  lemma SkipStep(root: Element, ps: seq<Pos>, docType: Result<string, Error>, number: string)
    requires AllValid(root, ps) && |ps| > 0 && HasIdFields(At(root, ps[0]))
    ensures var run := PatchEntries(root, ps, docType, number);
      var rest := PatchEntries(root, ps[1..], docType, number);
      && run.tree == rest.tree && run.patched == rest.patched && run.failure == rest.failure
      && run.notices == [AlreadyPatched(At(root, ps[0]).local, Parent(root, ps[0]).local)] + rest.notices
  {
  }

  /** A failure at the first entry leaves its `Patching` as the only notice. */
  lemma StopNotice(root: Element, ps: seq<Pos>, docType: Result<string, Error>, number: string)
    requires AllValid(root, ps) && |ps| > 0 && !HasIdFields(At(root, ps[0]))
    requires PatchEntries(root, ps, docType, number).failure.Some?
    ensures PatchEntries(root, ps, docType, number).notices == [Patching]
  {
    if Writable(docType, number) {
      var root' := Replace(root, ps[0], PatchedEntry(At(root, ps[0]), docType, number));
      PatchOutcome(root', ps[1..], docType, number);
      assert false;
    }
  }

  /** Index of the first entry of `ps` that still needs the fields. */
  function FirstNeedsPatch(root: Element, ps: seq<Pos>): (k: nat)
    requires AllValid(root, ps) && AnyNeedsPatch(root, ps)
    ensures k < |ps| && NeedsPatch(root, ps[k])
    ensures forall j :: 0 <= j < k ==> !NeedsPatch(root, ps[j])
    decreases |ps|
  {
    if NeedsPatch(root, ps[0]) then 0
    else
      var k := 1 + FirstNeedsPatch(root, ps[1..]);
      assert forall j :: 1 <= j < k ==> ps[j] == ps[1..][j - 1];
      k
  }

  /** When the document type can be written but the number cannot, the loop
      stops at the first entry needing the fields, after skipping those before
      it: that entry holds `p4` alone, the flag is set, and lxml's error is
      raised after one notice per entry visited. */
  lemma {:induction false} PatchRejectsNumber(root: Element, ps: seq<Pos>, docType: Result<string, Error>, number: string)
    requires AllValid(root, ps) && AnyNeedsPatch(root, ps)
    requires TypeWritable(docType) && !XmlText(number)
    ensures var run := PatchEntries(root, ps, docType, number);
      var k := FirstNeedsPatch(root, ps);
      && run.failure == Some(InvalidXmlText) && run.patched
      && run.tree == Replace(root, ps[k], WithTypeField(At(root, ps[k]), docType.value))
      && |run.notices| == k + 1 && run.notices[k] == Patching
    decreases |ps|
  {
    if !NeedsPatch(root, ps[0]) {
      PatchRejectsNumber(root, ps[1..], docType, number);
      assert ps[1..][FirstNeedsPatch(root, ps[1..])] == ps[FirstNeedsPatch(root, ps)];
    }
  }

  /** Number of `Patching` notices. */
  function CountPatching(ns: seq<Notice>): nat
  {
    if ns == [] then 0 else (if ns[0] == Patching then 1 else 0) + CountPatching(ns[1..])
  }

  /** Number of entries that still need patching. */
  function CountNeedsPatch(root: Element, ps: seq<Pos>): nat
    requires AllValid(root, ps)
  {
    if ps == [] then 0 else (if NeedsPatch(root, ps[0]) then 1 else 0) + CountNeedsPatch(root, ps[1..])
  }

  /** A completed loop prints `Patching` once per entry it patched. */
  lemma {:induction false} PatchCount(root: Element, ps: seq<Pos>, docType: Result<string, Error>, number: string)
    requires AllValid(root, ps) && InDocumentOrder(ps)
    requires PatchEntries(root, ps, docType, number).failure.None?
    ensures CountPatching(PatchEntries(root, ps, docType, number).notices) == CountNeedsPatch(root, ps)
  {
    PatchNotices(root, ps, docType, number);
    var notices := PatchEntries(root, ps, docType, number).notices;
    CountMatches(root, ps, notices);
  }

  lemma {:induction false} CountMatches(root: Element, ps: seq<Pos>, notices: seq<Notice>)
    requires AllValid(root, ps)
    requires NoticesMatch(root, ps, notices)
    ensures CountPatching(notices) == CountNeedsPatch(root, ps)
    decreases |ps|
  {
    if ps != [] {
      assert notices[0] == NoticeFor(root, ps[0]);
      forall k | 0 <= k < |ps[1..]|
        ensures notices[1..][k] == NoticeFor(root, ps[1..][k])
      {
        assert notices[k + 1] == NoticeFor(root, ps[k + 1]);
      }
      CountMatches(root, ps[1..], notices[1..]);
    }
  }

  /** Over entries that all hold both fields the loop changes nothing, sets no
      flag and never reads the document type or writes any text, so it cannot
      fail. */
  lemma {:induction false} PatchAllSkipped(root: Element, ps: seq<Pos>, docType: Result<string, Error>, number: string)
    requires AllValid(root, ps)
    requires forall k :: 0 <= k < |ps| ==> HasIdFields(At(root, ps[k]))
    ensures var run := PatchEntries(root, ps, docType, number);
      run.tree == root && !run.patched && run.failure.None?
      && |run.notices| == |ps| && forall k :: 0 <= k < |ps| ==> run.notices[k].AlreadyPatched?
    decreases |ps|
  {
    if ps != [] {
      assert HasIdFields(At(root, ps[0]));
      PatchAllSkipped(root, ps[1..], docType, number);
    }
  }

  // ---------------------------------------------------------------------------
  // The object's operations
  // ---------------------------------------------------------------------------

  /** `load(path)`: remember the path, parse the file, keep the tree, then check
      that it has user id data entries.  The namespace of the root is not
      checked and the `patched` flag is left as it was. */
  function Load(k: KeduDocument, path: Path, parsed: Option<Element>): (s: Step<()>)
    ensures s.state.path == Some(path) && s.state.patched == k.patched
    ensures s.notices == [Opening(path)]
    ensures parsed.None? ==> s.state.tree == k.tree && s.result == Err(MalformedXml)
    ensures parsed.Some? ==> s.state.tree == parsed
    ensures parsed.Some? ==>
      (s.result.Ok? <==> exists p :: Selected(parsed.value, parsed.value.ns, None, p))
    ensures parsed.Some? && s.result.Err? ==> s.result.error == NoUserEntries
    ensures parsed.Some? && parsed.value.ns == "" ==> s.result == Err(NoUserEntries)
  {
    var withPath := k.(path := Some(path));
    match parsed
    case None => Step(withPath, Err(MalformedXml), [Opening(path)])
    case Some(root) =>
      var loaded := withPath.(tree := Some(root));
      match UserEntries(root)
      case Ok(_) => Step(loaded, Ok(()), [Opening(path)])
      case Err(e) => Step(loaded, Err(e), [Opening(path)])
  }

  /** `add_id_document(id_document)` for the document whose raw number is
      `raw`: clear the flag, select the entries again, and run the loop. */
  function AddIdDocument(k: KeduDocument, raw: string): (s: Step<()>)
    ensures s.state.path == k.path
    ensures s.state.tree.Some? <==> k.tree.Some?
    ensures k.tree.None? ==> s.result == Err(NotLoaded) && !s.state.patched
    ensures k.tree.Some? && UserEntries(k.tree.value).Err? ==>
      s.result == Err(NoUserEntries) && s.state == k.(patched := false)
  {
    var cleared := k.(patched := false);
    match k.tree
    case None => Step(cleared, Err(NotLoaded), [])
    case Some(root) =>
      match UserEntries(root)
      case Err(e) => Step(cleared, Err(e), [])
      case Ok(ps) =>
        var run := PatchEntries(root, ps, IdentityDocuments.Classify(raw), IdentityDocuments.Normalise(raw));
        Step(cleared.(tree := Some(run.tree), patched := run.patched),
             if run.failure.Some? then Err(run.failure.value) else Ok(()),
             run.notices)
  }

  /** The file `save` writes to: the explicit path when one is given (an empty
      string counts as none), else the `_new` sibling when `backup` is set,
      else the loaded file itself. */
  function Destination(current: Option<Path>, explicit: Option<string>, backup: bool): (d: Option<Path>)
    ensures explicit.Some? && explicit.value != "" ==> d == Some(Parse(explicit.value))
    ensures (explicit.None? || explicit.value == "") ==> (d.Some? <==> current.Some?)
    ensures (explicit.None? || explicit.value == "") && current.Some? && backup ==>
      d == Some(BackupPath(current.value)) && d.value.dir == current.value.dir && d.value != current.value
    ensures (explicit.None? || explicit.value == "") && !backup ==> d == current
  {
    if explicit.Some? && explicit.value != "" then Some(Parse(explicit.value))
    else if current.None? then None
    else if backup then Some(BackupPath(current.value))
    else current
  }

  /** `save(path, backup)`: nothing is written unless the last patch changed
      something; otherwise the in-memory tree goes to the chosen destination. */
  function Save(k: KeduDocument, explicit: Option<string>, backup: bool): (s: Step<SaveOutcome>)
    ensures s.state == k
    ensures !k.patched ==> s.result == Ok(NotWritten) && s.notices == [NothingChanged]
    ensures k.patched && Consistent(k) ==>
      && s.result.Ok? && s.result.value.Written?
      && s.result.value.content == k.tree.value
      && Some(s.result.value.dest) == Destination(k.path, explicit, backup)
      && s.notices == [WritingTo(s.result.value.dest)]
  {
    if !k.patched then Step(k, Ok(NotWritten), [NothingChanged])
    else
      match (Destination(k.path, explicit, backup), k.tree)
      case (Some(dest), Some(root)) => Step(k, Ok(Written(dest, root)), [WritingTo(dest)])
      case _ => Step(k, Err(NotLoaded), [])
  }

  // ---------------------------------------------------------------------------
  // Properties of the object
  // ---------------------------------------------------------------------------

  /** The invariant every reachable object keeps: a tree is only held after a
      path was set, and the flag is only set while a tree is held. */
  predicate Consistent(k: KeduDocument)
  {
    (k.tree.Some? ==> k.path.Some?) && (k.patched ==> k.tree.Some?)
  }

  /** A new object is consistent, and every operation keeps it so, whether it
      succeeds or raises. */
  lemma OperationsKeepConsistent(k: KeduDocument, path: Path, parsed: Option<Element>,
                                 raw: string, explicit: Option<string>, backup: bool)
    requires Consistent(k)
    ensures Consistent(Initial)
    ensures Consistent(Load(k, path, parsed).state)
    ensures Consistent(AddIdDocument(k, raw).state)
    ensures Consistent(Save(k, explicit, backup).state)
  {
  }

  /** `add_id_document` on a loaded document with entries: it fails exactly
      when some entry still needs patching and the number is unrecognised or
      holds a character XML does not allow.  An unrecognised number leaves the
      tree untouched and the flag cleared; a refused one leaves the flag set.
      The flag ends up set exactly when the number was recognised and some
      entry needed patching, and nothing but the entries changes. */
  lemma AddIdDocumentOutcome(k: KeduDocument, root: Element, raw: string)
    requires k.tree == Some(root) && |Entries(root)| > 0
    ensures var s := AddIdDocument(k, raw);
      var known := IdentityDocuments.Classify(raw).Ok?;
      && s.state.tree.Some?
      && (s.result.Err? <==>
            !(known && XmlText(IdentityDocuments.Normalise(raw))) && AnyNeedsPatch(root, Entries(root)))
      && (s.result.Err? && !known ==>
            s.result.error == UnknownDocumentFormat(raw) && s.state.tree == k.tree && !s.state.patched)
      && (s.result.Err? && known ==> s.result.error == InvalidXmlText && s.state.patched)
      && (s.state.patched <==> known && AnyNeedsPatch(root, Entries(root)))
      && Frame(root, s.state.tree.value, Entries(root))
  {
    TypeCodesWritable(raw);
    PatchOutcome(root, Entries(root), IdentityDocuments.Classify(raw), IdentityDocuments.Normalise(raw));
    PatchFrame(root, Entries(root), IdentityDocuments.Classify(raw), IdentityDocuments.Normalise(raw));
  }

  /** Both type codes can be written as element text. */
  lemma TypeCodesWritable(raw: string)
    ensures TypeWritable(IdentityDocuments.Classify(raw)) <==> IdentityDocuments.Classify(raw).Ok?
  {
    assert XmlText(IdentityDocuments.IdCardType) && XmlText(IdentityDocuments.PassportType);
  }

  /** A recognised number holding a character XML does not allow: the call
      raises lxml's error at the first entry needing the fields, which then
      holds `p4` alone, with the flag set, so a following `save` writes that
      half-patched tree. */
  lemma AddIdDocumentRejectsNumber(k: KeduDocument, root: Element, raw: string,
                                   explicit: Option<string>, backup: bool)
    requires k.tree == Some(root) && k.path.Some? && AnyNeedsPatch(root, Entries(root))
    requires IdentityDocuments.Classify(raw).Ok? && !XmlText(IdentityDocuments.Normalise(raw))
    ensures var s := AddIdDocument(k, raw);
      var ps := Entries(root);
      var j := FirstNeedsPatch(root, ps);
      && s.result == Err(InvalidXmlText) && s.state.patched
      && s.state.tree == Some(Replace(root, ps[j], WithTypeField(At(root, ps[j]), IdentityDocuments.Classify(raw).value)))
      && Save(s.state, explicit, backup).result.Ok?
      && Save(s.state, explicit, backup).result.value == Written(Destination(k.path, explicit, backup).value, s.state.tree.value)
  {
    TypeCodesWritable(raw);
    PatchRejectsNumber(root, Entries(root), IdentityDocuments.Classify(raw), IdentityDocuments.Normalise(raw));
  }

  /** What `add_id_document` does to each entry when it succeeds: an entry
      holding both fields is unchanged; every other entry gains `p4` with the
      type code at index 3 and `p5` with the normalised number at index 4. */
  lemma AddIdDocumentEffect(k: KeduDocument, root: Element, raw: string)
    requires k.tree == Some(root) && AddIdDocument(k, raw).result.Ok?
    ensures var s := AddIdDocument(k, raw);
      var ps := Entries(root);
      && s.state.tree.Some?
      && forall j :: 0 <= j < |ps| ==>
           && ValidPos(s.state.tree.value, ps[j])
           && (!NeedsPatch(root, ps[j]) ==> At(s.state.tree.value, ps[j]) == At(root, ps[j]))
           && (NeedsPatch(root, ps[j]) ==>
                 IdentityDocuments.Classify(raw).Ok?
                 && At(s.state.tree.value, ps[j])
                    == WithIdFields(At(root, ps[j]), IdentityDocuments.Classify(raw).value, IdentityDocuments.Normalise(raw)))
  {
    var ps := Entries(root);
    var docType, number := IdentityDocuments.Classify(raw), IdentityDocuments.Normalise(raw);
    var run := PatchEntries(root, ps, docType, number);
    assert UserEntries(root) == Ok(ps);
    assert AddIdDocument(k, raw).state.tree == Some(run.tree) && run.failure.None?;
    PatchEffect(root, ps, docType, number);
    forall j | 0 <= j < |ps|
      ensures EntryOutcome(root, run.tree, ps[j], docType, number, true)
    {
    }
  }

  /** One notice per entry on success, and one `Patching` per patched entry. */
  lemma AddIdDocumentNotices(k: KeduDocument, root: Element, raw: string)
    requires k.tree == Some(root) && AddIdDocument(k, raw).result.Ok?
    ensures var s := AddIdDocument(k, raw);
      var ps := Entries(root);
      && |s.notices| == |ps|
      && (forall j :: 0 <= j < |ps| ==> s.notices[j] == NoticeFor(root, ps[j]))
      && CountPatching(s.notices) == CountNeedsPatch(root, ps)
  {
    PatchNotices(root, Entries(root), IdentityDocuments.Classify(raw), IdentityDocuments.Normalise(raw));
    PatchCount(root, Entries(root), IdentityDocuments.Classify(raw), IdentityDocuments.Normalise(raw));
  }

  /** Idempotence: after a successful `add_id_document`, a second call (with
      any document) skips every entry with a warning, leaves the tree as it
      is, clears the flag, and so the following `save` writes nothing. */
  lemma AddIdDocumentIdempotent(k: KeduDocument, raw: string, raw2: string, explicit: Option<string>, backup: bool)
    requires k.tree.Some? && AddIdDocument(k, raw).result.Ok?
    ensures var s1 := AddIdDocument(k, raw);
      var s2 := AddIdDocument(s1.state, raw2);
      && s2.result.Ok?
      && s2.state.tree == s1.state.tree
      && !s2.state.patched
      && (forall j :: 0 <= j < |s2.notices| ==> s2.notices[j].AlreadyPatched?)
      && Save(s2.state, explicit, backup).result == Ok(NotWritten)
  {
    var s1 := AddIdDocument(k, raw);
    FirstCallPatchesAll(k, raw);
    SecondCallSkipsAll(s1.state, raw2);
  }

  /** After a successful call every entry holds both fields, and the same
      entries are selected. */
  lemma FirstCallPatchesAll(k: KeduDocument, raw: string)
    requires k.tree.Some? && AddIdDocument(k, raw).result.Ok?
    ensures var root1 := AddIdDocument(k, raw).state.tree.value;
      && Entries(root1) == Entries(k.tree.value)
      && |Entries(root1)| > 0
      && forall j :: 0 <= j < |Entries(root1)| ==>
           ValidPos(root1, Entries(root1)[j]) && HasIdFields(At(root1, Entries(root1)[j]))
  {
    var root := k.tree.value;
    var ps := Entries(root);
    var s1 := AddIdDocument(k, raw);
    var root1 := s1.state.tree.value;
    assert |ps| > 0;
    assert Frame(root, root1, ps) by {
      AddIdDocumentOutcome(k, root, raw);
    }
    FrameSelect(root, root1, ps, root.ns, None);
    assert root1.ns == root.ns;
    assert Entries(root1) == ps;
    AddIdDocumentEffect(k, root, raw);
    forall j | 0 <= j < |ps|
      ensures ValidPos(root1, ps[j]) && HasIdFields(At(root1, ps[j]))
    {
    }
  }

  /** A call on a tree whose entries all hold both fields skips them all. */
  lemma SecondCallSkipsAll(k: KeduDocument, raw: string)
    requires k.tree.Some? && |Entries(k.tree.value)| > 0
    requires forall j :: 0 <= j < |Entries(k.tree.value)| ==>
      ValidPos(k.tree.value, Entries(k.tree.value)[j]) && HasIdFields(At(k.tree.value, Entries(k.tree.value)[j]))
    ensures var s := AddIdDocument(k, raw);
      && s.result.Ok? && s.state == k.(patched := false)
      && forall j :: 0 <= j < |s.notices| ==> s.notices[j].AlreadyPatched?
  {
    var root := k.tree.value;
    var ps := Entries(root);
    assert Selected(root, root.ns, None, ps[0]);
    PatchAllSkipped(root, ps, IdentityDocuments.Classify(raw), IdentityDocuments.Normalise(raw));
  }

  /** Loading does not clear the flag: after a patch, loading another file and
      saving writes that file, unpatched, to its `_new` sibling. */
  lemma ReloadKeepsStaleFlag(k: KeduDocument, path: Path, root: Element)
    requires k.patched
    ensures var loaded := Load(k, path, Some(root)).state;
      Save(loaded, None, true).result == Ok(Written(BackupPath(path), root))
  {
  }
}
