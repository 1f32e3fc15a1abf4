# ZUS KEDU declaration patcher — a Dafny model

The patcher adds the identity document of the insured person to a ZUS KEDU
declaration (the XML file of the Polish social insurance institution). Every
user id data entry (`II`) of the declaration gets two new child fields:

- `p4` holds the document type, `1` for an ID card and `2` for a passport;
- `p5` holds the document number, stripped of surrounding whitespace and
  upper-cased.

An entry that already holds both fields is skipped with a warning. The file is
written back only when something was changed. By default it is written to a
`<stem>_new<suffix>` sibling of the input.

The project models three parts of the repository:

- `identity_document.dfy` (module `IdentityDocuments`): `IdentityDocument`.
  It covers the normalisation `strip().upper()` and the two patterns
  `[A-Z]{3}\d{6}` and `[A-Z]{2}\d{7}`, matched as `re.match` does, as a
  prefix. It also covers the classification into a type code and the
  lazily filled caches of the two properties.
- `kedu.dfy` (module `Kedu`): the `KEDU` object as a state.
  - The state is `KeduDocument(path, tree, patched)`.
  - `load`, `add_id_document` and `save` are steps between states.
  - Each step returns the new state, the value returned or the error raised,
    and the console notices it printed.
  - The loop of `add_id_document` is `PatchEntries`. Its properties are stated
    entry by entry.
- `drafix.dfy` (module `Drafix`): the older single-entry command-line tool.
  - It checks the namespace and takes the first `KEDU/ZUSDRA/II` entry.
  - It inserts the fields unconditionally.
  - It chooses the output file.

The modules they build on:

- `wrappers.dfy`: `Option` and `Result`.
- `errors.dfy`: every failure and its message text.
- `paths.dfy`: `pathlib`'s split of a path and its `stem`/`suffix` rule.
- `xml_tree.dfy`: the parsed document as an immutable element tree. It covers:
  - the XPath `/zus:KEDU/zus:*/zus:II` as a selection of entry positions in
    document order;
  - `list.insert`, where an index past the end appends;
  - a frame predicate saying what a patch leaves alone.

`scenarios.dfy` restates the repository's unit tests over the model.

Parsing and reading files are parameters: `load` receives the parsed tree, or
`None` when the file is not well-formed XML. `save` reports the destination and
the tree it would write.

Where the code and its documentation disagree, the model follows the code:

- `load` never compares the root namespace with the KEDU 5.5 schema. The
  prefix `zus` is bound to whatever namespace the root element has
  (`zus/kedu.py:25-26`). A prefixed name test never matches an element without
  a namespace, so a declaration without one has no selectable entry and fails
  to load.
- `load` does not reset `patched`. The flag is cleared only at the start of
  `add_id_document` (`zus/kedu.py:46`). `Kedu.ReloadKeepsStaleFlag` states the
  consequence: after a patch, loading another file and saving writes that
  file, unpatched.
- On a declaration without a `ZUSDRA/II` entry the older tool fails by indexing
  an empty list (`drafix.py:19`). It does not raise the "found: 0" assertion
  its unit test expects. The model gives `MissingUserEntry`, carrying
  Python's `list index out of range`.
- `add_id_document` prints `Patching` before it reads the document type
  (`zus/kedu.py:55-56`). A number of unknown format therefore fails after
  exactly one `Patching` notice (`Kedu.PatchFailureNotices`).
- lxml refuses element text that holds a character XML does not allow, such
  as an ASCII control character. The number is written after `p4` was inserted
  and the flag set (`zus/kedu.py:56-60`). A recognised number with such a
  character therefore raises with the first entry needing the fields holding
  `p4` alone, and a following `save` writes that tree
  (`Kedu.AddIdDocumentRejectsNumber`). The older tool raises the same error
  before writing anything.

## Model

| member | source | states |
|---|---|---|
| Errors.Message | zus/kedu.py:27 | every failure carries a non-empty message text |
| Errors.UnknownFormatNamesInput | zus/identity_document.py:40 | the error for an unrecognised number quotes the raw input as the caller gave it, not the normalised one |
| Errors.NamespaceMismatchNamesBoth | drafix.py:17-18 | the namespace error names both the namespace found and the one expected |
| IdentityDocuments.Strip | zus/identity_document.py:26 | `strip()` leaves a result with no whitespace at either end, and removes only whitespace from both ends of the input |
| IdentityDocuments.StripUnique | zus/identity_document.py:26 | however the input is split into leading whitespace, a core with no whitespace at either end, and trailing whitespace, that core is what `strip()` returns, including the empty core of an all-whitespace input |
| IdentityDocuments.StripStripped | zus/identity_document.py:26 | stripping a string with no surrounding whitespace returns it unchanged |
| IdentityDocuments.Upper | zus/identity_document.py:26 | `upper()` keeps the length and maps every lower-case letter to its capital and every other character to itself |
| IdentityDocuments.Normalise | zus/identity_document.py:26 | the document number is no longer than the raw input, has no whitespace at either end and no lower-case letter |
| IdentityDocuments.UpperIdempotent | zus/identity_document.py:26 | upper-casing twice is upper-casing once |
| IdentityDocuments.NormaliseIdempotent | zus/identity_document.py:25-27 | the document number is a fixed point: normalising a normalised number gives it back |
| IdentityDocuments.RunMatches | zus/identity_document.py:6-7 | a repeated class `[A-Z]{n}` / `\d{n}` matches exactly when the first n characters exist and all belong to the class |
| IdentityDocuments.MatchesPrefix | zus/identity_document.py:35-37 | a pattern matches only a string at least as long as the characters it spans, and only when its first run matches |
| IdentityDocuments.TwoRunMatch | zus/identity_document.py:6-7 | a letters-then-digits pattern matches a prefix exactly when the leading characters are that many letters followed by that many digits, whatever follows |
| IdentityDocuments.IdCardMatch | zus/identity_document.py:35 | `re.match(ID_CARD_REGEX, s)` succeeds exactly on strings starting with three capitals and six digits |
| IdentityDocuments.PassportMatch | zus/identity_document.py:37 | `re.match(PASSPORT_REGEX, s)` succeeds exactly on strings starting with two capitals and seven digits |
| IdentityDocuments.ShapesExclusive | zus/identity_document.py:6-7 | no string has both the ID card and the passport shape |
| IdentityDocuments.Classify | zus/identity_document.py:34-40 | type `1` exactly for the ID card shape of the normalised number, `2` exactly for the passport shape without the ID card shape, otherwise the unknown-format error naming the raw input; a code is always `1` or `2` |
| IdentityDocuments.ClassifyOrderIrrelevant | zus/identity_document.py:35-38 | trying the passport pattern first would give the same result |
| IdentityDocuments.ClassifyOnlyByNumber | zus/identity_document.py:35-40 | two inputs with the same normalised number get the same type code |
| IdentityDocuments.ClassifyNormalised | zus/identity_document.py:35-40 | classifying the normalised number gives the same code as classifying the raw input |
| IdentityDocuments.New | zus/identity_document.py:17-18 | a fresh instance keeps the raw input and holds no stale cache |
| IdentityDocuments.ReadNumber | zus/identity_document.py:20-27 | reading `number` yields the normalised input whether or not it was cached, and leaves it cached |
| IdentityDocuments.ReadType | zus/identity_document.py:29-41 | reading `type` yields the classification whether or not it was cached, caches the number first, and caches the type exactly when it succeeds; a cached type is returned without touching the instance |
| IdentityDocuments.RepeatedReadsAgree | zus/identity_document.py:25-41 | a second read of either property returns what the first returned |
| Paths.LastIndexOf | zus/kedu.py:77 | the index found holds the character and no later index does, or -1 when none does |
| Paths.Parse | zus/kedu.py:34 | `Path(text)` splits the text into a directory part ending with a separator and a final component without one, which together give back the text |
| Paths.ParseRender | zus/kedu.py:34 | a well-formed path survives rendering and parsing again |
| Paths.SuffixStart | zus/kedu.py:77 | the suffix starts at the last dot exactly when that dot is neither the first nor the last character of the name; otherwise there is no suffix |
| Paths.Suffix | zus/kedu.py:77 | `suffix` is a tail of the name that is empty or a dot followed by at least one character, none of them dots |
| Paths.Stem | zus/kedu.py:77 | `stem` is a head of the name; when shorter than the name it is non-empty and followed by the last dot, after which no dot follows |
| Paths.SuffixAtLastDot | zus/kedu.py:77 | a dot past the first character, followed by at least one character and no other dot, is where stem and suffix split |
| Paths.BackupName | drafix.py:64 | the backup name is four characters longer than the name, begins with its stem and ends with its suffix |
| Paths.BackupNameOfSplit | drafix.py:64 | every name `<stem>.<ext>` with a non-empty stem and a non-empty, dot-free extension becomes `<stem>_new.<ext>` |
| Paths.StemSuffixSplit | zus/kedu.py:77 | `stem + suffix` is the name, and a suffix is a dot followed by at least one non-dot character after a non-empty stem |
| Paths.BackupPath | zus/kedu.py:77 | the backup sibling lies in the same directory, is four characters longer, differs from the input and is well-formed when the input is |
| Paths.BackupKeepsSuffix | zus/kedu.py:77 | the backup name keeps the suffix and its stem is the original stem followed by `_new` |
| Paths.BackupWithoutDot | zus/kedu.py:77 | a name without a dot gets `_new` appended and still has no suffix |
| XmlTree.TagParts | zus/kedu.py:48-49 | an element's tag is `{ns}local`, or the bare local name when it has no namespace, and always ends with the local name |
| XmlTree.HasIdFieldsSome | zus/kedu.py:48-49 | an entry holds both fields exactly when some child's tag ends with `p4` and some child's tag ends with `p5`, so it has at least two children |
| XmlTree.TagSuffixIsLocalSuffix | zus/kedu.py:48-49 | `tag.endswith('p4')` on a namespaced tag tests only the local name |
| XmlTree.AnyTagEndsWithSome | zus/kedu.py:48-49 | scanning the children one by one with `any(... endswith ...)` finds a match exactly when some child's tag ends with the suffix |
| XmlTree.InsertAt | zus/kedu.py:59 | `insert(i, x)` places `x` at `min(i, len)` and removing it gives back the original list |
| XmlTree.WithIdFields | zus/kedu.py:56-60 | the two insertions put `p4` (type) at index 3 and `p5` (number) at index 4 with the other children in order around them, append both to an entry with fewer than three children, and the entry then holds both fields |
| XmlTree.WithTypeField | zus/kedu.py:56-59 | the first insertion alone puts `p4` at `min(3, len)` with the other children in order around it |
| XmlTree.Select | zus/kedu.py:26 | the selection holds exactly the entries the XPath matches, in document order; with `zus` bound to no namespace it holds none |
| XmlTree.FrameTrans | zus/kedu.py:47-60 | the changes of two successive patches are confined to the union of the entries each touched |
| XmlTree.FrameSelect | zus/kedu.py:47 | patching entries does not change which entries are selected |
| Kedu.UserEntries | zus/kedu.py:24-28 | user entries are found in the root's own namespace, in document order, all of them; none found is the malformed-document error, which a root without a namespace always gets |
| Kedu.NoticeFor | zus/kedu.py:48-55 | the notice for an entry is `Patching` exactly when it lacks a field, otherwise the warning naming the entry and its parent |
| Kedu.PatchEntries | zus/kedu.py:47-60 | the loop prints at most one notice per entry, and exactly one per entry when it completes |
| Kedu.PatchFrame | zus/kedu.py:47-60 | the loop changes nothing but the children of the entries it visits |
| Kedu.PatchOutcome | zus/kedu.py:47-60 | the loop fails exactly when some entry needs patching and the type or the number cannot be written, with the type's error first; a failure before `p4` is written leaves the tree unchanged; the flag is set exactly when some entry needed patching and the type could be written |
| Kedu.PatchEffect | zus/kedu.py:47-60 | an entry holding both fields is left exactly as it was, and when the loop completes every other entry is the patched entry |
| Kedu.PatchNotices | zus/kedu.py:48-55 | a completed loop prints one notice per entry in order: `Patching`, or the warning naming the entry and its parent |
| Kedu.PatchFailureNotices | zus/kedu.py:55-56 | a failing loop has printed skip warnings followed by exactly one `Patching` |
| Kedu.FirstNeedsPatch | zus/kedu.py:47-55 | the first entry lacking a field: every entry before it holds both |
| Kedu.PatchRejectsNumber | zus/kedu.py:55-60 | when only the number is refused, the loop stops at the first entry needing the fields after skipping the earlier ones, that entry holds `p4` alone, the flag is set, and one notice per visited entry was printed |
| Kedu.TypeCodesWritable | zus/kedu.py:56-58 | both type codes are valid element text, so a recognised type is never refused |
| Kedu.AnyNeedsPatchSome | zus/kedu.py:47-53 | some entry is left to patch (the count of entries lacking a field is positive) exactly when one of the entries lacks `p4` or `p5` |
| Kedu.PatchCount | zus/kedu.py:55 | the number of `Patching` notices equals the number of entries that lacked a field |
| Kedu.PatchAllSkipped | zus/kedu.py:48-53 | over entries that all hold both fields the loop changes nothing, sets no flag, never reads the type and so cannot fail |
| Kedu.Load | zus/kedu.py:30-38 | `load` records the path even when parsing fails, announces the file, keeps the parsed tree, succeeds exactly when an entry is selected (never for a root without a namespace), and leaves the flag as it was |
| Kedu.AddIdDocument | zus/kedu.py:40-47 | `add_id_document` keeps the path, fails on an unloaded object, and on a tree without entries fails with the flag cleared and the tree untouched |
| Kedu.Destination | zus/kedu.py:74-77 | a given non-empty path wins; otherwise the `_new` sibling `<stem>_new<suffix>` in the same directory when backing up, else the loaded file |
| Kedu.Save | zus/kedu.py:65-81 | an unpatched object writes nothing and says so; a patched one writes its whole tree to the destination and announces it |
| Kedu.OperationsKeepConsistent | zus/kedu.py:20-81 | a new object is consistent (a tree only after a path, the flag only with a tree) and every operation keeps it so, on success and on error |
| Kedu.AddIdDocumentOutcome | zus/kedu.py:40-60 | on a loaded document with entries, the call fails exactly when an entry needs patching and the number is unknown or not valid XML text; an unknown one leaves the tree and clears the flag, a refused one leaves the flag set; the flag is set exactly when the number was recognised and an entry needed patching, and only entries change |
| Kedu.AddIdDocumentRejectsNumber | zus/kedu.py:55-60 | a recognised number that is not valid XML text raises lxml's error with the first entry needing the fields holding `p4` alone and the flag set, and the following `save` writes that tree |
| Kedu.AddIdDocumentEffect | zus/kedu.py:47-60 | after a successful call each entry holding both fields is unchanged and each other entry holds the type code at index 3 and the normalised number at index 4 |
| Kedu.AddIdDocumentNotices | zus/kedu.py:47-60 | a successful call prints one notice per entry, in order, with one `Patching` per patched entry |
| Kedu.AddIdDocumentIdempotent | zus/kedu.py:46-53 | after a successful call, a second call with any number skips every entry, changes no tree, clears the flag, and the following save writes nothing |
| Kedu.FirstCallPatchesAll | zus/kedu.py:47-60 | after a successful call the same entries are selected and every one holds both fields |
| Kedu.SecondCallSkipsAll | zus/kedu.py:46-53 | a call on a tree whose entries all hold both fields succeeds, only clears the flag, and prints only warnings |
| Kedu.ReloadKeepsStaleFlag | zus/kedu.py:30-38 | loading after a patch keeps the flag, so the next save writes the newly loaded tree to its `_new` sibling |
| Drafix.FindUserInfo | drafix.py:15-19 | a foreign root namespace is refused naming both namespaces; otherwise the result is the first `KEDU/ZUSDRA/II` entry in document order, and there is none exactly when the selection is empty |
| Drafix.FoundEntryIsUserEntry | drafix.py:19 | the entry the older tool takes is one the patcher visits too |
| Drafix.AddUserIdData | drafix.py:22-29 | the call fails with lxml's error exactly when a text is not valid XML; otherwise the entry gains two children, and with at least three children `p4` lands at 3, `p5` at 4, and removing them gives back the original children |
| Drafix.AddTwiceDuplicates | drafix.py:22-29 | with no skip check, adding twice duplicates the fields, the second pair in front of the first |
| Drafix.ChooseDocument | drafix.py:47-56 | exactly one of `--id` and `--passport` must be non-empty; the type is `1` for `--id` and `2` for `--passport` and the number is taken as typed |
| Drafix.OutputPath | drafix.py:64 | `--no-backup` writes in place, otherwise to the `_new` sibling in the same directory |
| Drafix.PatchDocument | drafix.py:58-59 | a foreign namespace, a missing entry and a refused text fail in that order; otherwise only the first `ZUSDRA` entry changes, gaining the two fields |
| Drafix.Fix | drafix.py:38-67 | `main` fails in order on bad arguments, unreadable XML, a foreign namespace, a missing entry and a number that is not valid XML text; otherwise it succeeds, only the first `ZUSDRA` entry changes, and it gains the fields with the number as typed |
| Drafix.SameOutputRule | drafix.py:64 | the older tool names its output as `save` does without an explicit path |
| Scenarios.NormaliseLowerIdCard | tests/tests.py:120 | `aaa000000` normalises to `AAA000000` |
| Scenarios.NormaliseLowerPassport | tests/tests.py:121 | `aa0000000` normalises to `AA0000000` |
| Scenarios.NormaliseUpperIdCard | tests/tests.py:122 | `BBB000000` normalises to itself |
| Scenarios.NormaliseUpperPassport | tests/tests.py:123 | `BB0000000` normalises to itself |
| Scenarios.NormaliseMixedIdCard | tests/tests.py:124 | `CcC000000` normalises to `CCC000000` |
| Scenarios.NormaliseMixedPassport | tests/tests.py:125 | `Ca0000000` normalises to `CA0000000` |
| Scenarios.IdCardTestShapes | tests/tests.py:120-124 | the normalised ID card test numbers have the ID card shape, hence type `1` |
| Scenarios.PassportTestShapes | tests/tests.py:121-125 | the normalised passport test numbers have only the passport shape, hence type `2` |
| Scenarios.NormaliseSurroundingSpace | zus/identity_document.py:26 | ` abc123456 ` normalises to `ABC123456` |
| Scenarios.ShortNumber | zus/identity_document.py:39-40 | a number whose normal form is shorter than nine characters is rejected |
| Scenarios.ClassifyShortNumber | zus/identity_document.py:39-40 | `12345` is rejected with an error naming it |
| Scenarios.DeclarationEntries | zus/kedu.py:26 | the entries of a `KEDU/ZUSDRA` declaration are visited one per `II`, in order |
| Scenarios.OriginalEntryNeedsPatch | tests/tests.py:35 | the blank test entry has no child whose tag ends with `p4` and none whose tag ends with `p5`, so it needs patching |
| Scenarios.PatchOriginalEntry | tests/tests.py:35-36 | inserting the fields into the blank test entry gives the expected patched entry |
| Scenarios.AddIdOnBlankEntries | tests/tests.py:93-104 | on any number of blank entries a recognised number patches every entry identically and prints one `Patching` per entry |
| Scenarios.AddIdTestCase | tests/tests.py:168-186 | load, add a recognised number and save: every entry patched, one `Patching` per entry, the patched tree written to the given path |
| Scenarios.SkipTestCase | tests/tests.py:188-207 | an entry parsed back from patched text, with `{ns}p4` and `{ns}p5` fields, is skipped with a warning naming `II` and `ZUSDRA`, the tree is left alone, and save writes nothing |
| Scenarios.LoadTestCases | tests/tests.py:106-166 | a declaration without entries announces the file and fails, one with an entry loads unless it has no namespace, and saving an unpatched load writes nothing |
| Scenarios.NumberWithControlClassified | zus/kedu.py:56-58 | `abc123456` followed by U+0001 is recognised as an ID card number but is not valid XML text |
| Scenarios.RejectedNumberLoop | zus/kedu.py:55-60 | on one blank entry a writable type and a refused number leave that entry with `p4` alone, the flag set and one `Patching` |
| Scenarios.RejectedNumberOnBlankEntry | zus/kedu.py:55-60 | `add_id_document` with a recognised but refused number on one blank entry fails with lxml's error after writing `p4` |
| Scenarios.RejectedNumberCase | zus/kedu.py:55-81 | load, add a recognised but refused number, and save: the call fails, yet the half-patched tree is written |
| Scenarios.DrafixTestCases | tests.py:24-63 | the older tool refuses a foreign namespace, finds no entry in an empty declaration, finds none when asked for the empty namespace, reports a document without a namespace as a mismatch, takes the single entry, and patches it into the expected entry unless a text is refused |
| Scenarios.BackupExample | zus/kedu.py:77 | the backup sibling of `kedu.xml` is `kedu_new.xml` in the same directory |

## Left out

- Reading, parsing and serialising XML, and opening and writing files. `load`
  receives the parsed tree (or `None` for malformed XML), and `save` reports
  what it would write. The serialised form that the unit tests compare byte for
  byte is not modelled.
- Attributes, namespace declarations and tail text of the XML tree. The
  patcher neither reads nor changes them.
- Comments and processing instructions. lxml lists them among the children of
  an entry. The `tag.endswith` test raises on them, because their `tag` is not
  a string. `insert(3, ...)` also counts them as positions. The model's
  children are elements only, so these cases are not modelled.
- Which exception a root without a namespace raises. The model reports the
  malformed-document error because the selection is empty; lxml may instead
  reject binding `zus` to the empty namespace with an XPath error of its own.
- The general XPath engine. Only the two expressions the code evaluates are
  modelled, `/zus:KEDU/zus:*/zus:II` and `/zus:KEDU/zus:ZUSDRA/zus:II`, with
  `zus` bound to a namespace.
- The namespace quirk of lxml. The new `p4`/`p5` elements have no namespace in
  the model, as `et.Element('p4')` creates them. How lxml serialises them
  inside a default namespace is not modelled. A document parsed back from text
  has them in the default namespace, with tags `{ns}p4` and `{ns}p5`.
  `Scenarios.SkipTestCase` loads that parsed shape.
- Drafix.AddUserIdData: the half-patched element is not returned. When the
  number is refused, lxml has already inserted `p4` into the caller's entry
  (`drafix.py:24-27`). The model returns only the error, because the older
  tool then stops without writing the file.
- Kedu.Destination: a `Path` argument is modelled by its text. `Path('')` is
  truthy in Python, so `save` would write to `Path('.')`. The model instead
  treats it like the empty string and falls back to the default destination.
- Unicode. `strip()` is modelled on ASCII whitespace, `upper()` on `a`-`z`
  and `\d` on `0`-`9`. Python applies all three to the whole of Unicode.
- Console text. Notices are modelled as values, and so is the message of every
  error. The messages for malformed XML and an unloaded object are
  placeholders: those failures come from lxml or from Python itself. The
  older tool's `Opening`/`Patching`/`Writing`/`Done` lines are not modelled.
- The `debug` flag of `add_id_document` and `--debug` of the older tool.
  Their only effect is printing.
- Argument parsing, help text and `exit(2)` of the older tool. The decision
  is modelled by `ChooseDocument`, which gives `Usage` on bad arguments.
- `Path` normalisation. `Path(text)` is modelled as a split at the last `/`.
  Collapsing repeated separators, `.` components and trailing slashes is not
  modelled.
- `add_id_document` receives the raw number. It does not receive an
  `IdentityDocument` object: both properties are pure functions of the raw
  input, and `IdentityDocuments.RepeatedReadsAgree` shows that the caches
  never change what is read.
