# bump2version: version values and configuration helpers, in Dafny

This project models two self-contained parts of bump2version:

- **The version value types of `bumpversion/configloader.py`.**
  - `Release` is a tuple of integers. The model covers its validation, the `major`/`minor`/`patch`/`subpatch` accessors, `triple`, `mutate`, `bump` and `str`.
  - `SubreleaseType` is modelled with its precedence table.
  - `Subrelease`, `FinalVersion`, `PublicVersion` and `Version` are modelled with their validation and their "comparable" forms. `_comparable` is meant to turn a missing epoch into 0, a missing dev number into -1 and a missing local label into "". As the classes are declared, it raises AttributeError wherever it has such a slot to fill (see "## Findings").
  - The `_compare`/`compare` sign functions are modelled too.
- **The helpers of `bumpversion/cli.py`:**
  - splitting the command line into positional and optional words;
  - the INI list and bool codecs of `ConfigurationIni`;
  - the default-filling of file configurations in `ConfigurationFile`;
  - how section names are classified when `ConfigurationIni.read` and `parse_ini` walk the sections of an INI file.

## How the model is built

- Python exceptions are values:
  - a call that returns or raises is a `Result` (`Ok(value)` or `Raise(exc)`);
  - a `validate()` method is an `Outcome` (`Pass` or `Fail(exc)`).
- The Python runtime pieces the code leans on are in `builtins.dfy`: `int()`, `str()`, `split`, `join`, `strip`, `splitlines`, `replace` and `lower`.
- Comparison is modelled the way Python does it:
  - each value is the tuple it is, as a sequence of `Item`s;
  - two tuples compare at the first slot where they differ;
  - each kind of slot has its own rule: integers, strings by code point, tuples of integers, or the `Subrelease` operators, which never return a result;
  - mixing kinds raises `TypeError`.
- `compare` retries on the comparable forms only after a `TypeError`, and only when both sides have a comparable form.
  - `Compare` is the corrected `compare`, whose retry fills the missing slots. The rest of the model uses it.
  - `CompareAsWritten` is `compare` as the classes are declared. Its retry raises AttributeError on every slot it has to fill, so it is the plain `_compare`.
- Imperative code stays imperative:
  - `triple`, `bump` and the argument splitter are loops;
  - the section walks of `read` and `parse_ini` are loops too;
  - `ConfigurationFile` is a class whose constructor fills the file configurations.

**Where the code departs from PEP 440:**

- **A missing dev number.** PEP 440 orders a dev release before its final release (1.0.dev0 < 1.0). The comparable form turns a missing dev number into -1, so with the corrected `compare` a version without a dev number sorts *below* the same version with any dev number 0 or more (`MissingDevSortsFirst`).
- **Values of different kinds.** Values of different structure are compared as Python tuples, then on their comparable forms; nothing projects them to `final()`/`public()`.

## Model

| member | source | states |
|---|---|---|
| ConfigLoader.SubreleaseTypeOf | bumpversion/configloader.py:57-68 | each of "a", "b", "rc", "post" is read as its own member and nothing else is; any other value is unrecognised |
| ConfigLoader.LabelRoundTrip | bumpversion/configloader.py:57-61 | reading a member's string value gives the member back |
| ConfigLoader.PrecedenceTable | bumpversion/configloader.py:63-85 | a < b < rc < unrecognised < post; `is_pre` holds of everything but post, and everything else precedes post |
| ConfigLoader.PrecedesIsStrictTotalOrder | bumpversion/configloader.py:63-82 | the type order is irreflexive, total on distinct types, and transitive |
| ConfigLoader.ValidateSubrelease | bumpversion/configloader.py:92-94 | a subrelease passes exactly when its number is at least 0 |
| ConfigLoader.ValidateRelease | bumpversion/configloader.py:130-135 | a release passes exactly when it has at least one part and every part is at least 0; an empty one fails with the "at least one part" message |
| ConfigLoader.Major | bumpversion/configloader.py:137-139 | `major` is the first part, and raises IndexError exactly on the empty release |
| ConfigLoader.AccessorsCoverRelease | bumpversion/configloader.py:141-151 | `minor` is absent iff fewer than 2 parts and `patch` iff fewer than 3; `subpatch` is the parts from index 3 on; major, minor, patch and subpatch together are the release |
| ConfigLoader.TripleOf | bumpversion/configloader.py:153-157 | the triple has length 3 and slot i is part i when it exists, else 0 |
| ConfigLoader.Triple | bumpversion/configloader.py:153-157 | the copy-then-append-zeros loop yields exactly that triple |
| ConfigLoader.TripleMatchesAccessors | bumpversion/configloader.py:137-157 | for a non-empty release the triple is (major, minor or 0, patch or 0) |
| ConfigLoader.Mutate | bumpversion/configloader.py:125-128 | succeeds iff the (possibly negative) index is in range, else IndexError; the result has the same length, the new value at that slot and every other slot unchanged |
| ConfigLoader.Bump | bumpversion/configloader.py:162-172 | the bump method, with its padding loop, returns exactly what `Bumped` specifies: a one-slot change inside the tuple, zero padding and `step` past its end, or the errors |
| ConfigLoader.BumpWithin | bumpversion/configloader.py:162-164 | inside the tuple, bump keeps the length, adds `step` at the index and changes nothing else |
| ConfigLoader.BumpBeyond | bumpversion/configloader.py:165-172 | past the end, bump succeeds iff `step > 0`; it then yields the old parts, zeros, and `step` at `index`, of length `index + 1`; otherwise "Nonexistent part cannot be decremented" |
| ConfigLoader.BumpKeepsValid | bumpversion/configloader.py:162-172 | a bump that does not push its slot below 0 keeps a valid release valid |
| ConfigLoader.BumpCanLeaveInvalid | bumpversion/configloader.py:162-164 | nothing stops a decrement below zero: bumping (0,) by -1 gives (-1,), which fails validation |
| ConfigLoader.BumpRaisesRelease | bumpversion/configloader.py:162-172 | a bump by a positive step always yields a release that `compare` ranks strictly above the original |
| ConfigLoader.PartStrings | bumpversion/configloader.py:159-160 | `str` of a release is built from `str` of each part, in order |
| ConfigLoader.ReleaseTextRoundTrip | bumpversion/configloader.py:159-160 | splitting `str(release)` on "." and reading each piece with `int` (as `Version.parse` does) gives back every non-empty release |
| ConfigLoader.FinalTextRoundTrip | bumpversion/configloader.py:185-190 | "epoch!" is written only for a present epoch, and the epoch and release parts of the version pattern read every valid final version back unchanged |
| ConfigLoader.FinalVersion.Comparable | bumpversion/configloader.py:192-196 | a missing epoch becomes 0; the release and a present epoch are kept |
| ConfigLoader.PublicVersion.Comparable | bumpversion/configloader.py:217-223 | a missing epoch becomes 0 and a missing dev -1; every present field is kept |
| ConfigLoader.Version.Comparable | bumpversion/configloader.py:295-303 | a missing epoch becomes 0, a missing dev -1 and a missing local label ""; every present field is kept |
| ConfigLoader.ComparableIdempotent | bumpversion/configloader.py:295-303 | applying the comparable form twice is applying it once, for all three version types |
| ConfigLoader.ValidateFinal | bumpversion/configloader.py:179-183 | a final version passes iff a present epoch is at least 0 and the release is valid |
| ConfigLoader.ValidateFinalField | bumpversion/configloader.py:179-183 | with a release that is a plain tuple, a final version whose epoch passes raises AttributeError at `self.release.validate()`; with a `Release` it validates as `ValidateFinal` does |
| ConfigLoader.DefaultFinalRejectedAsWritten | bumpversion/configloader.py:175-183 | as written, `FinalVersion()` has the plain tuple `(0,)` as its release, and validating it raises AttributeError |
| ConfigLoader.DefaultFinalVersion | bumpversion/configloader.py:175-177 | the corrected default final version has no epoch and the release (0,), and it validates |
| ConfigLoader.ValidateLocal | bumpversion/configloader.py:251-258 | a local label passes iff it is non-empty, only ASCII letters, digits and ".", and starts and ends with no "."; exactly the empty label raises IndexError |
| ConfigLoader.ValidateVersionAccepts | bumpversion/configloader.py:251-258 | corrected `Version.validate` passes exactly the versions whose epoch, release, subrelease number, dev number and local label are all valid |
| ConfigLoader.PlainVersionRejectedAsWritten | bumpversion/configloader.py:205-209 | as written, validating 1.0.0 without a subrelease raises AttributeError; the corrected check passes it |
| ConfigLoader.NegativeDevAcceptedAsWritten | bumpversion/configloader.py:260-261 | as written, a version with dev number -1 validates; the corrected check refuses it |
| ConfigLoader.DevSentinelBelowValidDevs | bumpversion/configloader.py:299-300 | the -1 standing in for a missing dev lies strictly below the dev number of every valid version |
| ConfigLoader.CompareInts | bumpversion/configloader.py:306-312 | tuple order on integers yields -1, 0 or 1, and 0 exactly for equal tuples |
| ConfigLoader.CompareItems | bumpversion/configloader.py:99-114 | two slots compare to 0 exactly when equal; two different subreleases never return and a subrelease against None raises AttributeError |
| ConfigLoader.CompareTuples | bumpversion/configloader.py:306-312 | `_compare` yields 0 exactly on equal tuples, and otherwise -1 or 1 or an exception |
| ConfigLoader.Compare | bumpversion/configloader.py:315-324 | the corrected `compare` answers only -1, 0 or 1 |
| ConfigLoader.ComparableAsWritten | bumpversion/configloader.py:175-196 | as the classes are declared, `_comparable` raises AttributeError exactly when epoch, dev or local label is missing, and otherwise returns the version unchanged |
| ConfigLoader.CompareAsWritten | bumpversion/configloader.py:315-324 | as written, `compare` always gives what `_compare` gives: the retry never turns a TypeError into an answer |
| ConfigLoader.MissingEpochRaisesAsWritten | bumpversion/configloader.py:192-196 | as written, a final version without an epoch against the same one with epoch 0 raises TypeError; the corrected `compare` answers 0 |
| ConfigLoader.CompareAntisymmetric | bumpversion/configloader.py:306-324 | swapping the operands flips the sign, and an exception raised one way is raised the other way |
| ConfigLoader.CompareTuplesTransitive | bumpversion/configloader.py:306-312 | first > second > third implies first > third |
| ConfigLoader.CompareTransitive | bumpversion/configloader.py:306-324 | `compare` is transitive among versions and among releases |
| ConfigLoader.ItemsOfComparable | bumpversion/configloader.py:295-303 | the comparable form fills exactly the None slots of epoch, dev and local label, and no subrelease sits in those slots |
| ConfigLoader.FillingKeepsOutcome | bumpversion/configloader.py:315-324 | filling the None slots never changes a comparison that did not raise TypeError |
| ConfigLoader.CompareIsComparableOrder | bumpversion/configloader.py:315-324 | for any two versions, `compare` equals the direct comparison of their comparable forms: the retry only ever replaces a TypeError |
| ConfigLoader.CompareReleases | bumpversion/configloader.py:306-312 | releases always compare, lexicographically by part |
| ConfigLoader.ReleaseOrderIsTotal | bumpversion/configloader.py:306-324 | on releases `compare` always answers, is 0 exactly on equal releases, is antisymmetric and is transitive |
| ConfigLoader.CompareFinalVersions | bumpversion/configloader.py:315-324 | final versions always compare: by epoch (missing counts as 0), then by release |
| ConfigLoader.MissingEpochCountsAsZero | bumpversion/configloader.py:192-196 | a missing epoch and epoch 0 compare equal |
| ConfigLoader.CompareVersionsSharingSubrelease | bumpversion/configloader.py:295-324 | versions with the same subrelease always compare: by epoch, release, dev (missing = -1), then local label (missing = "") |
| ConfigLoader.MissingDevSortsFirst | bumpversion/configloader.py:217-223 | a public version or version without a dev number sorts strictly below the same one with any dev number 0 or more |
| ConfigLoader.MissingPublicDevSortsFirst | bumpversion/configloader.py:217-223 | a public version without a dev number sorts strictly below the same public version with any dev number 0 or more |
| Cli.SplitArgsInOptionalAndPositional | bumpversion/cli.py:72-92 | the positions loop and the two selections yield, in order, the positional words and the remaining words |
| Cli.ContainsIsMembership | bumpversion/cli.py:84-86 | the word-by-word lookup in the option list holds exactly when the word is in the list |
| Cli.PositionsOf | bumpversion/cli.py:76-87 | the first loop collects exactly the indices of words that do not start with "-" and do not follow an option that takes a value |
| Cli.KeepWords | bumpversion/cli.py:89-90 | each selection keeps, in order, exactly the words whose index is (or is not) among the positions |
| Cli.SplitIsPartition | bumpversion/cli.py:89-92 | the two outputs' lengths sum to the input's, and together they hold every word exactly once |
| Cli.LandsAtRank | bumpversion/cli.py:76-92 | each word lands on its side right after the earlier words of that side, so each output keeps the input order |
| Cli.SplitKeepsOrder | bumpversion/cli.py:89-92 | of two words on the same side, the earlier one comes first |
| Cli.NonBlank | bumpversion/cli.py:260 | every kept line is non-empty and stripped at both ends |
| Cli.LoadsList | bumpversion/cli.py:258-260 | no element of a decoded list is empty |
| Cli.UnescapeEscape | bumpversion/cli.py:258-264 | replacing backslash-n by a newline undoes replacing newlines by backslash-n, for text without a backslash |
| Cli.ListRoundTrip | bumpversion/cli.py:258-264 | `_loads_list(_dumps_list(xs)) == xs`, the empty list included, for items that are non-empty, hold no backslash, no line break but newline, and no outer whitespace but newline |
| Cli.LoadsBool | bumpversion/cli.py:266-277 | true exactly for 1/true/on/yes and false exactly for 0/false/off/no after lower-casing; anything else raises KeyError |
| Cli.LoadsBoolIgnoresCase | bumpversion/cli.py:266-277 | the case of the word does not matter |
| Cli.DumpsBoolInverts | bumpversion/cli.py:279-281 | as written, reading back what `_dumps_bool` writes gives the opposite flag |
| Cli.DumpsBoolRoundTrip | bumpversion/cli.py:279-281 | the corrected writer reads back as the same flag |
| Cli.FillKey | bumpversion/cli.py:111-114 | one step adds the key, from the defaults or the built-in, only when it is missing, and keeps every present key |
| Cli.FillFileKey | bumpversion/cli.py:111-114 | one `if key not in file_config` step in place computes exactly that step |
| Cli.FilledProperties | bumpversion/cli.py:110-127 | a filled file configuration keeps every present key and value, and has parse, serialize, search and replace, each missing one from the defaults, else from the built-in |
| Cli.FilledKeys | bumpversion/cli.py:110-127 | a filled configuration has exactly its own keys plus parse, serialize, search and replace |
| Cli.FillFileConfig | bumpversion/cli.py:111-127 | the four `if key not in file_config` steps compute exactly the filled configuration |
| Cli.FillFileConfigs | bumpversion/cli.py:110-127 | the loop fills every file configuration and keeps the set of files |
| Cli.FilledComplete | bumpversion/cli.py:150-157 | a configuration that already has the four keys is left as it is |
| Cli.FillingIsIdempotent | bumpversion/cli.py:150-157 | filling twice, with any defaults the second time, is filling once |
| Cli.ConfigurationFile.constructor | bumpversion/cli.py:96-127 | the defaults become defaults updated with root, and every file configuration is filled from them |
| Cli.ConfigurationFile.CopyFrom | bumpversion/cli.py:150-157 | copying a constructed configuration reproduces its four dicts |
| Cli.ClassifyReadSectionNames | bumpversion/cli.py:232-248 | a section is file (part) NAME exactly when it is named prefix + ":file:" (":part:") + NAME |
| Cli.CollectLastWins | bumpversion/cli.py:240-248 | the collected dict holds exactly the names that occur, each with the value of its last section |
| Cli.ReadSections | bumpversion/cli.py:232-248 | the section loop collects file sections with `serialize` decoded and part sections with `values` decoded |
| Cli.ReadEntriesByName | bumpversion/cli.py:232-248 | file (part) NAME exists after the loop exactly when some section is named prefix + ":file:" (":part:") + NAME |
| Cli.DecodeListOptions | bumpversion/cli.py:217-221 | the serialize loop decodes `serialize` when present and changes nothing else |
| Cli.DecodeFlagOptions | bumpversion/cli.py:223-227 | the bool loop decodes commit, tag and dry_run when present and known, and keeps an unknown word as a string |
| Cli.DecodeRoot | bumpversion/cli.py:215-227 | every root option ends as `serialize` decoded, a known flag decoded, or the string as read |
| Cli.ReadIni | bumpversion/cli.py:198-250 | `read` builds a valid configuration whose root, parts and file names are the decoded sections under the prefix |
| Cli.ClassifyIniSectionNames | bumpversion/cli.py:374-381 | "bumpversion:file:" or "bumpversion:part:" followed by one non-empty line names that file or part |
| Cli.ClassifiedIniSectionHasName | bumpversion/cli.py:374-381 | a section read as a file or part begins with its kind and its name, which is non-empty and holds no newline |
| Cli.PartConfigurationOf | bumpversion/cli.py:385-400 | a part is enumerated exactly when it has `values`, which become its stripped non-blank lines; other options stay strings |
| Cli.ParseIniSections | bumpversion/cli.py:372-437 | the section loop collects the part configurations and lists the filled file configurations in section order |
| Cli.ParseIniStep | bumpversion/cli.py:372-432 | one more section adds its part configuration under its name when it is a part section, or appends its filled file configuration when it is a file section, and otherwise changes nothing |
| Cli.ParsedPartKind | bumpversion/cli.py:385-400 | each collected part comes from the last section naming it and is enumerated exactly when that section has `values` |
| Cli.IniFilesAreComplete | bumpversion/cli.py:402-437 | every listed file comes from a file section and has parse, serialize, search and replace |

## Left out

- `Subrelease.__gt__` and its siblings (bumpversion/configloader.py:99-114):
  - against another subrelease they call themselves with the operands swapped and never return;
  - against None they call `is_pre` on None.
  - The model's slot comparison returns those exceptions (RecursionError, AttributeError), so no order of versions with different subreleases is stated.
  - A subrelease against an integer cannot occur (it is always the third slot) and is treated as TypeError.
- bumpversion/configloader.py as written cannot be imported: the version pattern is compiled when the module loads (line 241), and its outer group is never closed. The model describes each member as if the module loaded.
- `Comparable._compare` (bumpversion/configloader.py:46-52) raises in its `finally` on every call. Nothing calls it; it is not modelled.
- `PublicVersion.__str__` and `Version.__str__` (bumpversion/configloader.py:214-215, 266-270) print "None" for a missing subrelease and omit dev. They are not modelled.
- The version pattern and `Version.parse` (bumpversion/configloader.py:229-293):
  - the pattern's outer group is never closed, so it cannot compile;
  - `parse` reads group names the pattern does not define.
  - Only the epoch-and-release fragment and its `int` conversion are modelled (`ParseFinalText`).
- `SubreleaseType`: every value the enumeration refuses becomes the one member `Unrecognised`. So two subreleases with different unrecognised types and the same number are equal in the model, and `Compare` answers 0 for them; in Python they differ, and `Subrelease.__gt__` recurses until RecursionError (bumpversion/configloader.py:99-103).
- `Release.bump`'s default `step=1` (bumpversion/configloader.py:162) is not modelled as a default: `Bumped` and `Bump` always take the step as an argument.
- A version's release field is always a `Release` in the model (`FinalVersion.release`, and the same field of `PublicVersion` and `Version`). A plain tuple there makes `validate` raise AttributeError at `self.release.validate()` (bumpversion/configloader.py:183), and `ValidateFinal` does not capture that. Only the release field of `ValidateFinalField` can be a plain tuple, to state the default-release finding below.
- `is_pos_int` also checks `isinstance(n, int)`. The model's fields are integers, so bools, floats and strings in version fields are not modelled.
- `int()` is modelled for an optional sign followed by ASCII digits. Surrounding whitespace, underscores and non-ASCII digits are not accepted by the model.
- `lower()` is modelled on ASCII letters only. This cannot change `_loads_bool`: the only non-ASCII characters that lower-case into ASCII are KELVIN SIGN (to "k") and capital I with dot (to "i" and a combining dot), and no accepted word contains either result.
- `main`, `parse_toml`, `ConfigurationToml.read`/`write`, `ConfigurationIni.write` and `part_file_configs` are not modelled (bumpversion/cli.py:132-149, 158-193, 252-256, 288-309, 447-1010). They are argparse, files, toml, version control, or broken code.
- `time_context` (bumpversion/cli.py:54) is built from the clock and is not modelled.
- Warnings and logging are not modelled, including the "files =" deprecation warning.
- `VersionConfig`, `NumericVersionPartConfiguration`, `ConfiguredVersionPartConfiguration` and `ConfiguredFile` come from modules that are not part of this model. A part configuration records only which class would be built and its options. The `part_configs` entry that `parse_ini` adds to each file section is not modelled.
- `ConfigurationFile.__init__` with `root=None` raises TypeError at `"files" in root`. The model's root is a map, and callers always pass one.
- The constructor updates the caller's `defaults` dict and file dicts in place. Here they are map values, so that aliasing is not modelled.
- Reading the INI file is not modelled: ConfigParser, interpolation for setup.cfg, DEFAULT-section merging and option-name case. A file is given as its ordered section names with their raw options. `ConfigurationIni.read` takes its root options as a parameter, so the NoSectionError of `config.items(prefix)` is not modelled.
- `parse_ini` before its section loop (bumpversion/cli.py:312-370) is not modelled: the file check, logging, and the defaults update from the `[bumpversion]` section with `getboolean`. The section loop takes the updated defaults as a parameter.
- ConfigLoader.FinalVersion.Comparable: states the corrected fill of a missing epoch. As written, `out.mutate` (bumpversion/configloader.py:195) does not exist and raises AttributeError; `ComparableAsWritten` models that.
- ConfigLoader.PublicVersion.Comparable: states the corrected fill of a missing epoch and dev number. As written, `out.mutate` (bumpversion/configloader.py:220, 222) raises AttributeError; `ComparableAsWritten` models that.
- ConfigLoader.Version.Comparable: states the corrected fill of a missing epoch, dev number and local label. As written, `out.mutate` (bumpversion/configloader.py:298-302) raises AttributeError; `ComparableAsWritten` models that.
- ConfigLoader.ItemsOfComparable: is about the corrected comparable forms. As written they raise AttributeError wherever a slot would be filled.
- ConfigLoader.Compare: is the corrected `compare`. As written, a TypeError that filling would resolve stays a TypeError; `CompareAsWritten` models that.
- ConfigLoader.CompareIsComparableOrder: is about the corrected `compare`. As written, `compare` is `_compare` itself (`CompareAsWritten`).
- ConfigLoader.CompareFinalVersions: is about the corrected `compare`. As written, a missing epoch against a present one raises TypeError.
- ConfigLoader.MissingEpochCountsAsZero: is about the corrected `compare`. As written, the pair raises TypeError (`MissingEpochRaisesAsWritten`).
- ConfigLoader.CompareVersionsSharingSubrelease: is about the corrected `compare`. As written, a missing epoch, dev number or local label against a present one raises TypeError.
- ConfigLoader.MissingDevSortsFirst: is about the corrected `compare`. As written, a missing dev number against a present one raises TypeError.
- ConfigLoader.MissingPublicDevSortsFirst: is about the corrected `compare`. As written, a missing dev number against a present one raises TypeError.
- Cli.ReadIni: states the names of the file configurations and that each is complete, not each one's value. Those values follow from `ReadSections` and the constructor's contract.
- Cli.LoadsList: states only that no element is empty. The full meaning (stripped, non-blank lines, unescaped) is the function's definition, and `ListRoundTrip` is its partner.

## Findings

| source | as written | input that shows it | evidently intended | confidence | as-written member | corrected member |
|---|---|---|---|---|---|---|
| bumpversion/configloader.py:205-209 | `PublicVersion.validate` calls `self.subrelease.validate()` even when the subrelease is None | `Version(None, Release((1, 0, 0)), None, None, None).validate()` raises AttributeError | check a present subrelease only, as the module's `validate(obj)` helper does | not executed | ConfigLoader.PlainVersionRejectedAsWritten | ConfigLoader.ValidateVersionAccepts |
| bumpversion/configloader.py:260-261 | `Version.public()` does not pass on `dev`, so `Version.validate` never checks it | `Version(None, Release((1,)), Subrelease(SubreleaseType.ALPHA, 1), -1, None).validate()` passes | a negative dev number is refused, as `PublicVersion.validate` does | not executed | ConfigLoader.NegativeDevAcceptedAsWritten | ConfigLoader.ValidateVersionAccepts |
| bumpversion/configloader.py:177 | the default release of `FinalVersion` is the plain tuple `(0,)`, which has no `validate` | `FinalVersion().validate()` raises AttributeError | the default is `Release((0,))`, as `PublicVersion` and `Version` have it, and validates | not executed | ConfigLoader.DefaultFinalRejectedAsWritten | ConfigLoader.DefaultFinalVersion |
| bumpversion/configloader.py:175-196 | the version classes are declared `class X(NamedTuple, Mutatable)`, but a `NamedTuple` class is built on `tuple` alone and takes no `Mutatable` base, so `_comparable`'s `out.mutate(...)` (lines 195, 220, 222, 298, 300, 302) raises AttributeError and `compare` re-raises the TypeError (lines 320-323) | `compare(FinalVersion(None, Release((1,))), FinalVersion(0, Release((1,))))` raises TypeError | the missing epoch counts as 0 and the answer is 0, as `_replace` or `Mutatable` as a plain mixin would give | not executed | ConfigLoader.CompareAsWritten, ConfigLoader.MissingEpochRaisesAsWritten | ConfigLoader.Compare, ConfigLoader.CompareIsComparableOrder |
| bumpversion/cli.py:279-281 | `["True", "False"][int(val)]` | `_dumps_bool(True)` is "False" | "True" for true and "False" for false | not executed | Cli.DumpsBoolInverts | Cli.DumpsBoolRoundTrip |
