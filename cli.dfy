/**
 * The self-contained helpers of bumpversion/cli.py: splitting the command line into
 * positional and optional arguments, the INI list and bool codecs of
 * `ConfigurationIni`, the default-filling of `ConfigurationFile`, and the way INI
 * section names are classified into file and part sections.
 */
module Cli {
  import opened Builtins

  // ---------------------------------------------------------------------------
  // split_args_in_optional_and_positional

  /** The options whose value is the next command-line word. */
  const OptionalArgumentsThatTakeValues: seq<string> := [
    "--config-file", "--current-version", "--message", "--new-version", "--parse",
    "--serialize", "--search", "--replace", "--tag-name", "--tag-message", "-m"
  ]

  /** `word in words`, one word at a time. */
  function Contains(words: seq<string>, word: string): (r: bool)
  {
    words != [] && (words[0] == word || Contains(words[1..], word))
  }

  lemma {:induction false} ContainsIsMembership(words: seq<string>, word: string)
    ensures Contains(words, word) <==> word in words
  {
    if words != [] {
      ContainsIsMembership(words[1..], word);
      assert words == [words[0]] + words[1..];
    }
  }

  /**
   * Word i is positional when it does not start with "-" and is not the value of the
   * option just before it.
   */
  predicate IsPositional(args: seq<string>, i: int)
    requires 0 <= i < |args|
  {
    !StartsWith(args[i], "-") && (i == 0 || !Contains(OptionalArgumentsThatTakeValues, args[i - 1]))
  }

  /** The words among the first n whose positional-ness is `want`, in their order. */
  function Picked(args: seq<string>, want: bool, n: nat): (picked: seq<string>)
    requires n <= |args|
    ensures |picked| <= n
  {
    if n == 0 then []
    else Picked(args, want, n - 1) + (if IsPositional(args, n - 1) == want then [args[n - 1]] else [])
  }

  /**
   * `split_args_in_optional_and_positional(args)`: the indices of the positional words
   * are collected first; then one pass keeps the words at those indices and another
   * keeps the rest.
   */
  method SplitArgsInOptionalAndPositional(args: seq<string>) returns (positionals: seq<string>, rest: seq<string>)
    ensures positionals == Picked(args, true, |args|)
    ensures rest == Picked(args, false, |args|)
  {
    var positions := PositionsOf(args);
    positionals := KeepWords(args, positions, true);
    rest := KeepWords(args, positions, false);
  }

  /** The first loop: the indices of the positional words. */
  method PositionsOf(args: seq<string>) returns (positions: seq<nat>)
    ensures forall k: nat :: k in positions <==> k < |args| && IsPositional(args, k)
  {
    positions := [];
    for i := 0 to |args|
      invariant forall k: nat :: k in positions <==> k < i && IsPositional(args, k)
    {
      var previous: Option<string> := None;
      if i > 0 {
        previous := Some(args[i - 1]);
      }
      var positional := !StartsWith(args[i], "-")
        && (previous.None? || !Contains(OptionalArgumentsThatTakeValues, previous.value));
      assert positional == IsPositional(args, i);
      if positional {
        positions := positions + [i];
      }
    }
  }

  /** `[arg for i, arg in enumerate(args) if i in positions]`, or `not in` when `want` is false. */
  method KeepWords(args: seq<string>, positions: seq<nat>, want: bool) returns (kept: seq<string>)
    requires forall k: nat :: k in positions <==> k < |args| && IsPositional(args, k)
    ensures kept == Picked(args, want, |args|)
  {
    kept := [];
    for i := 0 to |args|
      invariant kept == Picked(args, want, i)
    {
      if (i in positions) == want {
        kept := kept + [args[i]];
      }
    }
  }

  /** Every word goes to exactly one side: the two sides together are the input, as a multiset. */
  lemma {:induction false} SplitIsPartition(args: seq<string>, n: nat)
    requires n <= |args|
    ensures |Picked(args, true, n)| + |Picked(args, false, n)| == n
    ensures multiset(Picked(args, true, n)) + multiset(Picked(args, false, n)) == multiset(args[..n])
  {
    if n > 0 {
      SplitIsPartition(args, n - 1);
      assert args[..n] == args[..n - 1] + [args[n - 1]];
      PickedStep(args, n);
      PartitionStep(Picked(args, true, n - 1), Picked(args, false, n - 1), args[..n - 1],
                    args[n - 1], IsPositional(args, n - 1), Picked(args, true, n), Picked(args, false, n));
    }
  }

  /** Adding one word to one side keeps the two sides a partition of the words seen. */
  lemma PartitionStep(yes: seq<string>, no: seq<string>, seen: seq<string>, x: string, p: bool,
                      yes': seq<string>, no': seq<string>)
    requires |yes| + |no| == |seen| && multiset(yes) + multiset(no) == multiset(seen)
    requires yes' == yes + (if p then [x] else []) && no' == no + (if p then [] else [x])
    ensures |yes'| + |no'| == |seen| + 1
    ensures multiset(yes') + multiset(no') == multiset(seen + [x])
  {
  }

  lemma PickedStep(args: seq<string>, n: nat)
    requires 0 < n <= |args|
    ensures var x, p := args[n - 1], IsPositional(args, n - 1);
      && Picked(args, true, n) == Picked(args, true, n - 1) + (if p then [x] else [])
      && Picked(args, false, n) == Picked(args, false, n - 1) + (if p then [] else [x])
  {
  }

  /** What one side holds after n words is the start of what it holds after more. */
  lemma {:induction false} PickedGrowsAtTheEnd(args: seq<string>, want: bool, i: nat, n: nat)
    requires i <= n <= |args|
    ensures Picked(args, want, i) <= Picked(args, want, n)
    decreases n - i
  {
    if i < n {
      PickedGrowsAtTheEnd(args, want, i, n - 1);
    }
  }

  /**
   * Word i lands on its side at its rank: after the words of that side that come
   * before it. So each side keeps the original order.
   */
  lemma LandsAtRank(args: seq<string>, want: bool, i: nat, n: nat)
    requires i < n <= |args| && IsPositional(args, i) == want
    ensures |Picked(args, want, i)| < |Picked(args, want, n)|
    ensures Picked(args, want, n)[|Picked(args, want, i)|] == args[i]
  {
    PickedGrowsAtTheEnd(args, want, i + 1, n);
  }

  /** Of two words on the same side, the earlier one comes first there. */
  lemma SplitKeepsOrder(args: seq<string>, want: bool, i: nat, j: nat)
    requires i < j < |args| && IsPositional(args, i) == want && IsPositional(args, j) == want
    ensures |Picked(args, want, i)| < |Picked(args, want, j)|
  {
    LandsAtRank(args, want, i, j);
  }

  // ---------------------------------------------------------------------------
  // ConfigurationIni._loads_list / _dumps_list

  /** `s.replace("\n", "\\n")`: a newline becomes a backslash and an "n". */
  function Escape(s: string): string {
    Replace(s, "\n", "\\n")
  }

  /** `s.replace("\\n", "\n")`: a backslash followed by "n" becomes a newline. */
  function Unescape(s: string): (r: string)
    ensures s != [] ==> r != []
  {
    Replace(s, "\\n", "\n")
  }

  /** The stripped lines of `lines` that are not blank, in order. */
  function NonBlank(lines: seq<string>): (kept: seq<string>)
    ensures forall x :: x in kept ==> Trimmed(x)
  {
    if lines == [] then []
    else
      var line, rest := Strip(lines[0]), NonBlank(lines[1..]);
      if line == [] then rest
      else
        assert forall x :: x in [line] + rest ==> x == line || x in rest;
        [line] + rest
  }

  lemma NonBlankItems(kept: seq<string>)
    requires forall x :: x in kept ==> Trimmed(x)
    ensures forall i :: 0 <= i < |kept| ==> kept[i] != []
  {
    forall i | 0 <= i < |kept| ensures kept[i] != [] {
      assert kept[i] in kept;
      assert Trimmed(kept[i]);
    }
  }

  /** A non-empty string with no whitespace at either end. */
  predicate Trimmed(x: string) {
    x != [] && !IsSpace(x[0]) && !IsSpace(x[|x| - 1])
  }

  /**
   * `_loads_list(s)`: each line of `s` that is not blank, stripped, with every
   * backslash-"n" turned into a newline. No element is empty.
   */
  function LoadsList(s: string): (xs: seq<string>)
    ensures forall x :: x in xs ==> x != []
  {
    var kept := NonBlank(SplitLines(s));
    NonBlankItems(kept);
    seq(|kept|, i requires 0 <= i < |kept| => Unescape(kept[i]))
  }

  /** `_dumps_list(lst)`: the items, newlines escaped, one per line. */
  function DumpsList(xs: seq<string>): string {
    Join(seq(|xs|, i requires 0 <= i < |xs| => Escape(xs[i])), '\n')
  }

  /** Escaping works piece by piece: the pattern is a single character. */
  lemma {:induction false} EscapeAppend(a: string, b: string)
    ensures Escape(a + b) == Escape(a) + Escape(b)
  {
    if a != [] {
      var head := if a[0] == '\n' then "\\n" else [a[0]];
      assert (a + b)[0] == a[0] && (a + b)[1..] == a[1..] + b;
      assert Escape(a + b) == head + Escape(a[1..] + b);
      assert Escape(a) == head + Escape(a[1..]);
      EscapeAppend(a[1..], b);
    } else {
      assert a + b == b;
    }
  }

  lemma EscapeFirstAndLast(x: string)
    requires x != []
    ensures Escape(x) != []
    ensures Escape(x)[0] == if x[0] == '\n' then '\\' else x[0]
    ensures Escape(x)[|Escape(x)| - 1] == if x[|x| - 1] == '\n' then 'n' else x[|x| - 1]
  {
    var first, last := x[0], x[|x| - 1];
    EscapeOfChar(first);
    EscapeOfChar(last);
    EscapeAppend([first], x[1..]);
    assert [first] + x[1..] == x;
    EscapeAppend(x[..|x| - 1], [last]);
    assert x[..|x| - 1] + [last] == x;
    var tail := Escape([last]);
    assert Escape(x) == Escape(x[..|x| - 1]) + tail;
    assert Escape(x)[|Escape(x)| - 1] == tail[|tail| - 1];
  }

  lemma EscapeOfChar(c: char)
    ensures Escape([c]) == if c == '\n' then "\\n" else [c]
  {
    assert [c][|"\n"|..] == [c][1..] == [];
    assert Escape([]) == [];
    if c == '\n' {
      assert [c] == "\n";
    } else {
      assert [c][0] != "\n"[0];
    }
  }

  /** An escaped string holds no newline: only the original's other characters, backslashes and "n"s. */
  lemma {:induction false} EscapedCharacters(x: string)
    ensures forall c :: c in Escape(x) ==> c == '\\' || c == 'n' || (c in x && c != '\n')
  {
    if x != [] {
      EscapeAppend([x[0]], x[1..]);
      assert [x[0]] + x[1..] == x;
      EscapedCharacters(x[1..]);
    }
  }

  /** Unescaping undoes escaping when the original holds no backslash. */
  lemma {:induction false} UnescapeEscape(x: string)
    requires '\\' !in x
    ensures Unescape(Escape(x)) == x
  {
    if x != [] {
      EscapeAppend([x[0]], x[1..]);
      assert [x[0]] + x[1..] == x;
      var rest := Escape(x[1..]);
      UnescapeEscape(x[1..]);
      if x[0] == '\n' {
        assert Escape(x) == "\\n" + rest;
        assert (Escape(x))[2..] == rest;
      } else {
        assert Escape(x) == [x[0]] + rest;
        assert (Escape(x))[1..] == rest;
      }
    }
  }

  /** The first line break of `line + "\n" + rest` is the one after `line`. */
  lemma LineEndAfterLine(line: string, rest: string)
    requires forall c :: c in line ==> !IsLineBoundary(c)
    ensures LineEnd(line + ['\n'] + rest) == |line|
  {
    var s := line + ['\n'] + rest;
    forall k | 0 <= k < |line| ensures !IsLineBoundary(s[k]) {
      assert s[k] == line[k] && line[k] in line;
    }
    assert s[|line|] == '\n';
  }

  /** Lines joined with "\n" split back into the same lines, when none is empty or holds a line break. */
  lemma {:induction false} SplitLinesOfJoin(lines: seq<string>)
    requires forall l :: l in lines ==> l != [] && forall c :: c in l ==> !IsLineBoundary(c)
    ensures SplitLines(Join(lines, '\n')) == lines
  {
    if |lines| == 1 {
      var first := lines[0];
      assert first in lines;
      forall k | 0 <= k < |first| ensures !IsLineBoundary(first[k]) {
        assert first[k] in first;
      }
    } else if |lines| > 1 {
      var first, rest := lines[0], Join(lines[1..], '\n');
      assert first in lines;
      var s := first + ['\n'] + rest;
      assert Join(lines, '\n') == s;
      LineEndAfterLine(first, rest);
      assert s[|first|] == '\n';
      assert s[..|first|] == first;
      assert s[|first| + 1..] == rest;
      assert SplitLines(s) == [first] + SplitLines(rest);
      forall l | l in lines[1..] ensures l != [] && forall c :: c in l ==> !IsLineBoundary(c) {
        assert l in lines;
      }
      SplitLinesOfJoin(lines[1..]);
      assert lines == [first] + lines[1..];
    }
  }

  lemma {:induction false} NonBlankKeepsTrimmedLines(lines: seq<string>)
    requires forall l :: l in lines ==> l != [] && !IsSpace(l[0]) && !IsSpace(l[|l| - 1])
    ensures NonBlank(lines) == lines
  {
    if lines != [] {
      assert Strip(lines[0]) == lines[0];
      NonBlankKeepsTrimmedLines(lines[1..]);
      assert lines == [lines[0]] + lines[1..];
    }
  }

  /**
   * The items `_loads_list(_dumps_list(xs))` gives back unchanged: non-empty, no
   * backslash, no line break but "\n", and no leading or trailing whitespace but "\n".
   */
  predicate ListItemOk(x: string) {
    && x != []
    && '\\' !in x
    && (forall c :: c in x && c != '\n' ==> !IsLineBoundary(c))
    && (x[0] == '\n' || !IsSpace(x[0]))
    && (x[|x| - 1] == '\n' || !IsSpace(x[|x| - 1]))
  }

  /** An item `_dumps_list` can write makes one clean line that unescapes back to it. */
  lemma EscapedItem(x: string)
    requires ListItemOk(x)
    ensures var e := Escape(x);
      && e != [] && !IsSpace(e[0]) && !IsSpace(e[|e| - 1])
      && (forall c :: c in e ==> !IsLineBoundary(c))
      && Unescape(e) == x
  {
    EscapeFirstAndLast(x);
    EscapedCharacters(x);
    UnescapeEscape(x);
  }

  /** `_loads_list(_dumps_list(xs)) == xs`, the empty list included. */
  lemma ListRoundTrip(xs: seq<string>)
    requires forall x :: x in xs ==> ListItemOk(x)
    ensures LoadsList(DumpsList(xs)) == xs
  {
    var escaped := seq(|xs|, i requires 0 <= i < |xs| => Escape(xs[i]));
    forall l | l in escaped
      ensures l != [] && !IsSpace(l[0]) && !IsSpace(l[|l| - 1])
      ensures forall c :: c in l ==> !IsLineBoundary(c)
    {
      var i :| 0 <= i < |escaped| && escaped[i] == l;
      assert xs[i] in xs;
      EscapedItem(xs[i]);
    }
    SplitLinesOfJoin(escaped);
    NonBlankKeepsTrimmedLines(escaped);
    var loaded := LoadsList(DumpsList(xs));
    assert |loaded| == |xs|;
    forall i | 0 <= i < |xs| ensures loaded[i] == xs[i] {
      assert xs[i] in xs;
      EscapedItem(xs[i]);
    }
  }

  // ---------------------------------------------------------------------------
  // ConfigurationIni._loads_bool / _dumps_bool

  /** The words `_loads_bool` knows, lower-cased, and what each means. */
  const BoolWords: map<string, bool> := map[
    "1" := true, "true" := true, "on" := true, "yes" := true,
    "0" := false, "false" := false, "off" := false, "no" := false
  ]

  /** `_loads_bool(s)`: the meaning of `s.lower()`; any other word raises KeyError. */
  function LoadsBool(s: string): (r: Result<bool>)
    ensures r == Ok(true) <==> Lower(s) in {"1", "true", "on", "yes"}
    ensures r == Ok(false) <==> Lower(s) in {"0", "false", "off", "no"}
    ensures r.Raise? ==> r.exc == KeyError
  {
    if Lower(s) in BoolWords then Ok(BoolWords[Lower(s)]) else Raise(KeyError)
  }

  /** `_dumps_bool(val)`: `["True", "False"][int(val)]`. */
  function DumpsBool(val: bool): string {
    ["True", "False"][if val then 1 else 0]
  }

  /** As written, `_dumps_bool` writes the opposite of its argument: reading it back flips the flag. */
  lemma DumpsBoolInverts(val: bool)
    ensures LoadsBool(DumpsBool(val)) == Ok(!val)
  {
    assert Lower("True") == "true";
    assert Lower("False") == "false";
  }

  /** `_dumps_bool` as evidently intended: "True" for true, "False" for false. */
  function DumpsBoolIntended(val: bool): string {
    ["False", "True"][if val then 1 else 0]
  }

  lemma DumpsBoolRoundTrip(val: bool)
    ensures LoadsBool(DumpsBoolIntended(val)) == Ok(val)
  {
    assert Lower("True") == "true";
    assert Lower("False") == "false";
  }

  lemma LowerIdempotent(s: string)
    ensures Lower(Lower(s)) == Lower(s)
  {
  }

  /** Case does not matter to `_loads_bool`. */
  lemma LoadsBoolIgnoresCase(s: string)
    ensures LoadsBool(s) == LoadsBool(Lower(s))
  {
    LowerIdempotent(s);
  }

  // ---------------------------------------------------------------------------
  // ConfigurationFile: the four dicts and the defaults of file configurations

  /** A configuration value: a string as read, a list (`serialize`, `values`) or a flag. */
  datatype ConfigValue = Str(s: string) | StrList(items: seq<string>) | Flag(b: bool)

  /** A section after reading: option names to values. */
  type Section = map<string, ConfigValue>

  /** A section as the INI parser gives it: option names to raw strings. */
  type RawSection = map<string, string>

  /** The keys every file configuration ends up with. */
  const RequiredFileKeys: set<string> := {"parse", "serialize", "search", "replace"}

  /** The value a required key takes when neither the file nor the defaults give one. */
  function BuiltinDefault(key: string): ConfigValue
    requires key in RequiredFileKeys
  {
    if key == "parse" then Str("(?P<major>\\d+)\\.(?P<minor>\\d+)\\.(?P<patch>\\d+)")
    else if key == "serialize" then StrList(["{major}.{minor}.{patch}"])
    else if key == "search" then Str("{current_version}")
    else Str("{new_version}")
  }

  /** `defaults.get(key, <built-in>)`. */
  function DefaultFor(defaults: Section, key: string): ConfigValue
    requires key in RequiredFileKeys
  {
    if key in defaults then defaults[key] else BuiltinDefault(key)
  }

  /** One `if key not in file_config: file_config[key] = defaults.get(key, <built-in>)` step. */
  function FillKey(config: Section, defaults: Section, key: string): (r: Section)
    requires key in RequiredFileKeys
    ensures r.Keys == config.Keys + {key}
    ensures forall k :: k in config ==> r[k] == config[k]
    ensures key !in config ==> r[key] == DefaultFor(defaults, key)
  {
    if key in config then config else config[key := DefaultFor(defaults, key)]
  }

  /** A file configuration after default-filling, key by key as the source does it. */
  function Filled(config: Section, defaults: Section): Section {
    var withParse := FillKey(config, defaults, "parse");
    var withSerialize := FillKey(withParse, defaults, "serialize");
    var withSearch := FillKey(withSerialize, defaults, "search");
    FillKey(withSearch, defaults, "replace")
  }

  /**
   * Default-filling keeps every present key as it is and adds each missing required
   * key from the defaults, else from the built-in value.
   */
  lemma FilledProperties(config: Section, defaults: Section)
    ensures Filled(config, defaults).Keys == config.Keys + RequiredFileKeys
    ensures forall k :: k in config ==> Filled(config, defaults)[k] == config[k]
    ensures forall k :: k in RequiredFileKeys && k !in config ==> Filled(config, defaults)[k] == DefaultFor(defaults, k)
  {
    var withParse := FillKey(config, defaults, "parse");
    var withSerialize := FillKey(withParse, defaults, "serialize");
    var withSearch := FillKey(withSerialize, defaults, "search");
    var filled := FillKey(withSearch, defaults, "replace");
    assert Filled(config, defaults) == filled;
    FilledKeys(config, defaults);
    forall k | k in RequiredFileKeys && k !in config
      ensures filled[k] == DefaultFor(defaults, k)
    {
      FilledMissingKey(config, defaults, k);
    }
  }

  /** The keys of a filled configuration: its own and the required ones. */
  lemma FilledKeys(config: Section, defaults: Section)
    ensures Filled(config, defaults).Keys == config.Keys + RequiredFileKeys
  {
    var withParse := FillKey(config, defaults, "parse");
    var withSerialize := FillKey(withParse, defaults, "serialize");
    var withSearch := FillKey(withSerialize, defaults, "search");
    var filled := FillKey(withSearch, defaults, "replace");
    assert Filled(config, defaults) == filled;
    forall k ensures k in filled.Keys <==> k in config.Keys + RequiredFileKeys {
      assert k in filled.Keys <==> k in config || k == "parse" || k == "serialize" || k == "search" || k == "replace";
    }
  }

  lemma FilledMissingKey(config: Section, defaults: Section, k: string)
    requires k in RequiredFileKeys && k !in config
    ensures Filled(config, defaults)[k] == DefaultFor(defaults, k)
  {
    var withParse := FillKey(config, defaults, "parse");
    var withSerialize := FillKey(withParse, defaults, "serialize");
    var withSearch := FillKey(withSerialize, defaults, "search");
    if k == "parse" {
      assert withParse[k] == DefaultFor(defaults, k);
    } else if k == "serialize" {
      assert k !in withParse;
    } else if k == "search" {
      assert k !in withSerialize;
    } else {
      assert k == "replace";
      assert k !in withSearch;
    }
  }

  /** The four `if key not in file_config` steps of `ConfigurationFile.__init__`. */
  method FillFileConfig(config: Section, defaults: Section) returns (filled: Section)
    ensures filled == Filled(config, defaults)
  {
    filled := FillFileKey(config, defaults, "parse");
    filled := FillFileKey(filled, defaults, "serialize");
    filled := FillFileKey(filled, defaults, "search");
    filled := FillFileKey(filled, defaults, "replace");
  }

  /** One `if key not in file_config: file_config[key] = ...` step. */
  method FillFileKey(config: Section, defaults: Section, key: string) returns (filled: Section)
    requires key in RequiredFileKeys
    ensures filled == FillKey(config, defaults, key)
  {
    filled := config;
    if key !in filled {
      filled := filled[key := DefaultFor(defaults, key)];
    }
  }

  /** A configuration that already has every required key is left alone by filling. */
  lemma FilledComplete(config: Section, defaults: Section)
    requires RequiredFileKeys <= config.Keys
    ensures Filled(config, defaults) == config
  {
    assert "parse" in config && "serialize" in config && "search" in config && "replace" in config;
  }

  /** Filling twice, with any defaults the second time, is filling once. */
  lemma FillingIsIdempotent(config: Section, defaults: Section, later: Section)
    ensures Filled(Filled(config, defaults), later) == Filled(config, defaults)
  {
    FilledComplete(Filled(config, defaults), later);
  }

  /** The loop over `self.file.values()`: every file configuration filled, each on its own. */
  method FillFileConfigs(file: map<string, Section>, defaults: Section) returns (filled: map<string, Section>)
    ensures filled.Keys == file.Keys
    ensures forall name :: name in file ==> filled[name] == Filled(file[name], defaults)
    ensures forall name :: name in file ==> RequiredFileKeys <= filled[name].Keys
  {
    filled := file;
    var todo := file.Keys;
    while todo != {}
      invariant todo <= file.Keys && filled.Keys == file.Keys
      invariant forall name :: name in file ==>
        filled[name] == if name in todo then file[name] else Filled(file[name], defaults)
      decreases |todo|
    {
      var name :| name in todo;
      var config := FillFileConfig(filled[name], defaults);
      assert config == Filled(file[name], defaults);
      filled := filled[name := config];
      todo := todo - {name};
    }
    FilledSectionsComplete(file, filled, defaults);
  }

  lemma FilledSectionsComplete(file: map<string, Section>, filled: map<string, Section>, defaults: Section)
    requires file.Keys <= filled.Keys
    requires forall name :: name in file ==> filled[name] == Filled(file[name], defaults)
    ensures forall name :: name in file ==> RequiredFileKeys <= filled[name].Keys
  {
    forall name | name in file
      ensures RequiredFileKeys <= filled[name].Keys
    {
      FilledKeys(file[name], defaults);
    }
  }

  class ConfigurationFile {
    var root: Section
    var part: map<string, Section>
    var file: map<string, Section>
    var defaults: Section

    /** What construction establishes: the defaults hold the root, every file config is complete. */
    predicate Valid()
      reads this
    {
      && (forall k :: k in root ==> k in defaults && defaults[k] == root[k])
      && (forall name :: name in file ==> RequiredFileKeys <= file[name].Keys)
    }

    /**
     * `ConfigurationFile.__init__`: the defaults are updated with the root, then every
     * file configuration gets its missing required keys. (`x or dict()` turns a None
     * argument into an empty dict, here the empty map.)
     */
    constructor (root: Section, part: map<string, Section>, file: map<string, Section>, defaults: Section)
      ensures Valid()
      ensures this.root == root && this.part == part
      ensures this.defaults == defaults + root
      ensures this.file.Keys == file.Keys
      ensures forall name :: name in file ==> this.file[name] == Filled(file[name], defaults + root)
    {
      var merged := defaults + root;
      var filled := FillFileConfigs(file, merged);
      this.root := root;
      this.part := part;
      this.file := filled;
      this.defaults := merged;
    }

    /**
     * `copy_from`: a new configuration from another's four dicts. Copying a
     * constructed configuration changes nothing.
     */
    static method CopyFrom(other: ConfigurationFile) returns (c: ConfigurationFile)
      ensures fresh(c) && c.Valid()
      ensures c.root == other.root && c.part == other.part
      ensures c.defaults == other.defaults + other.root
      ensures other.Valid() ==> c.defaults == other.defaults && c.file == other.file
    {
      c := new ConfigurationFile(other.root, other.part, other.file, other.defaults);
      if other.Valid() {
        assert other.defaults + other.root == other.defaults;
        forall name | name in other.file
          ensures c.file[name] == other.file[name]
        {
          FilledComplete(other.file[name], other.defaults);
        }
      }
    }
  }

  // ---------------------------------------------------------------------------
  // Reading INI sections: ConfigurationIni.read and parse_ini

  /** What a section name is read as. */
  datatype SectionKind = FileSection(name: string) | PartSection(name: string) | Ignored

  /**
   * `ConfigurationIni.read`: a section `<prefix>:file:<name>` is file `name`, a section
   * `<prefix>:part:<name>` is part `name`, and every other section is skipped.
   */
  function ClassifyReadSection(prefix: string, section: string): SectionKind {
    var filePrefix := prefix + ":file:";
    var partPrefix := prefix + ":part:";
    if StartsWith(section, filePrefix) then FileSection(section[|filePrefix|..])
    else if StartsWith(section, partPrefix) then PartSection(section[|partPrefix|..])
    else Ignored
  }

  /** A section is file (part) `name` exactly when its name is the prefix, ":file:" (":part:") and `name`. */
  lemma ClassifyReadSectionNames(prefix: string, section: string, name: string)
    ensures ClassifyReadSection(prefix, section) == FileSection(name) <==> section == prefix + ":file:" + name
    ensures ClassifyReadSection(prefix, section) == PartSection(name) <==> section == prefix + ":part:" + name
  {
    var filePrefix, partPrefix := prefix + ":file:", prefix + ":part:";
    if StartsWith(section, filePrefix) {
      assert section == filePrefix + section[|filePrefix|..];
      assert section[|prefix| + 1] == 'f';
    } else if StartsWith(section, partPrefix) {
      assert section == partPrefix + section[|partPrefix|..];
    }
    if section == prefix + ":part:" + name {
      assert section[|prefix| + 1] == 'p';
      assert section[..|partPrefix|] == partPrefix;
    }
    if section == prefix + ":file:" + name {
      assert section[..|filePrefix|] == filePrefix;
    }
  }

  /** A section's options with the one list-valued option decoded by `_loads_list`. */
  function Decoded(raw: RawSection, listKey: string): Section {
    map k | k in raw :: if k == listKey then StrList(LoadsList(raw[k])) else Str(raw[k])
  }

  function FileName(kind: SectionKind): Option<string> {
    if kind.FileSection? then Some(kind.name) else None
  }

  function PartName(kind: SectionKind): Option<string> {
    if kind.PartSection? then Some(kind.name) else None
  }

  /** Entries named in order, a later entry replacing an earlier one of the same name (dict assignment). */
  function Collect<V>(names: seq<Option<string>>, values: seq<V>): map<string, V>
    requires |names| == |values|
  {
    if names == [] then map[]
    else
      var earlier := Collect(names[..|names| - 1], values[..|values| - 1]);
      var last := names[|names| - 1];
      if last.Some? then earlier[last.value := values[|values| - 1]] else earlier
  }

  /**
   * The collected map holds exactly the names that occur, each with the value of its
   * last occurrence.
   */
  lemma {:induction false} CollectLastWins<V>(names: seq<Option<string>>, values: seq<V>, name: string)
    requires |names| == |values|
    ensures name in Collect(names, values) <==> Some(name) in names
    ensures name in Collect(names, values) ==>
      exists j :: 0 <= j < |names| && names[j] == Some(name) && Collect(names, values)[name] == values[j]
                  && forall k :: j < k < |names| ==> names[k] != Some(name)
  {
    if names != [] {
      var n := |names| - 1;
      var initial, initialValues := names[..n], values[..n];
      CollectLastWins(initial, initialValues, name);
      assert names == initial + [names[n]];
      if names[n] == Some(name) {
        assert names[n] == Some(name) && Collect(names, values)[name] == values[n];
      } else if name in Collect(names, values) {
        var j :| 0 <= j < n && initial[j] == Some(name) && Collect(initial, initialValues)[name] == initialValues[j]
                 && forall k :: j < k < n ==> initial[k] != Some(name);
        assert names[j] == Some(name) && Collect(names, values)[name] == values[j];
      }
    }
  }

  /** Per section, in order: the file name it gives under `prefix`, if any. */
  function ReadFileNames(prefix: string, sections: seq<(string, RawSection)>): seq<Option<string>> {
    seq(|sections|, i requires 0 <= i < |sections| => FileName(ClassifyReadSection(prefix, sections[i].0)))
  }

  function ReadPartNames(prefix: string, sections: seq<(string, RawSection)>): seq<Option<string>> {
    seq(|sections|, i requires 0 <= i < |sections| => PartName(ClassifyReadSection(prefix, sections[i].0)))
  }

  function DecodedSections(sections: seq<(string, RawSection)>, listKey: string): seq<Section> {
    seq(|sections|, i requires 0 <= i < |sections| => Decoded(sections[i].1, listKey))
  }

  /**
   * The loop over `config.sections()` in `ConfigurationIni.read`: file sections get
   * `serialize` decoded, part sections get `values` decoded, the rest are skipped.
   */
  method ReadSections(prefix: string, sections: seq<(string, RawSection)>)
    returns (file: map<string, Section>, part: map<string, Section>)
    ensures file == Collect(ReadFileNames(prefix, sections), DecodedSections(sections, "serialize"))
    ensures part == Collect(ReadPartNames(prefix, sections), DecodedSections(sections, "values"))
  {
    file := map[];
    part := map[];
    for i := 0 to |sections|
      invariant file == Collect(ReadFileNames(prefix, sections[..i]), DecodedSections(sections[..i], "serialize"))
      invariant part == Collect(ReadPartNames(prefix, sections[..i]), DecodedSections(sections[..i], "values"))
    {
      var (section, raw) := sections[i];
      assert ReadFileNames(prefix, sections[..i + 1])[..i] == ReadFileNames(prefix, sections[..i]);
      assert ReadPartNames(prefix, sections[..i + 1])[..i] == ReadPartNames(prefix, sections[..i]);
      assert DecodedSections(sections[..i + 1], "serialize")[..i] == DecodedSections(sections[..i], "serialize");
      assert DecodedSections(sections[..i + 1], "values")[..i] == DecodedSections(sections[..i], "values");
      var kind := ClassifyReadSection(prefix, section);
      if kind.FileSection? {
        file := file[kind.name := Decoded(raw, "serialize")];
      } else if kind.PartSection? {
        part := part[kind.name := Decoded(raw, "values")];
      }
    }
    assert sections[..|sections|] == sections;
  }

  /**
   * After `read`'s section loop, file `name` exists exactly when some section is named
   * `<prefix>:file:<name>`, and part `name` exactly when some section is named
   * `<prefix>:part:<name>`.
   */
  lemma ReadEntriesByName(prefix: string, sections: seq<(string, RawSection)>, name: string)
    ensures name in Collect(ReadFileNames(prefix, sections), DecodedSections(sections, "serialize"))
            <==> exists j :: 0 <= j < |sections| && sections[j].0 == prefix + ":file:" + name
    ensures name in Collect(ReadPartNames(prefix, sections), DecodedSections(sections, "values"))
            <==> exists j :: 0 <= j < |sections| && sections[j].0 == prefix + ":part:" + name
  {
    var fileNames, partNames := ReadFileNames(prefix, sections), ReadPartNames(prefix, sections);
    CollectLastWins(fileNames, DecodedSections(sections, "serialize"), name);
    CollectLastWins(partNames, DecodedSections(sections, "values"), name);
    forall j | 0 <= j < |sections|
      ensures fileNames[j] == Some(name) <==> sections[j].0 == prefix + ":file:" + name
      ensures partNames[j] == Some(name) <==> sections[j].0 == prefix + ":part:" + name
    {
      ClassifyReadSectionNames(prefix, sections[j].0, name);
    }
    if Some(name) in fileNames {
      var j :| 0 <= j < |fileNames| && fileNames[j] == Some(name);
    }
    if Some(name) in partNames {
      var j :| 0 <= j < |partNames| && partNames[j] == Some(name);
    }
  }

  /** The options `read` turns into lists, and those it turns into flags. */
  const ListOptions: seq<string> := ["serialize"]
  const BoolOptions: seq<string> := ["commit", "tag", "dry_run"]

  /**
   * A root option after `read`: `serialize` decoded as a list; `commit`, `tag` and
   * `dry_run` decoded as flags, a word `_loads_bool` does not know staying a string
   * (its KeyError is caught); anything else a string.
   */
  function RootValue(key: string, raw: string): ConfigValue {
    PartlyDecoded(key, raw, ListOptions, BoolOptions)
  }

  /** A root option once the list options in `lists` and the flag options in `flags` are decoded. */
  function PartlyDecoded(key: string, raw: string, lists: seq<string>, flags: seq<string>): ConfigValue {
    if key in lists then StrList(LoadsList(raw))
    else if key in flags && LoadsBool(raw).Ok? then Flag(LoadsBool(raw).value)
    else Str(raw)
  }

  /** `for listvaluename in ("serialize",)`: each list option present is decoded. */
  method DecodeListOptions(raw: RawSection) returns (root: Section)
    ensures root.Keys == raw.Keys
    ensures forall k :: k in raw ==> root[k] == PartlyDecoded(k, raw[k], ListOptions, [])
  {
    root := map k | k in raw :: Str(raw[k]);
    for n := 0 to |ListOptions|
      invariant root.Keys == raw.Keys
      invariant forall k :: k in raw ==> root[k] == PartlyDecoded(k, raw[k], ListOptions[..n], [])
    {
      var name := ListOptions[n];
      assert ListOptions[..n + 1] == ListOptions[..n] + [name];
      if name in root {
        root := root[name := StrList(LoadsList(raw[name]))];
      }
    }
    assert ListOptions[..|ListOptions|] == ListOptions;
  }

  /** `for boolvaluename in ("commit", "tag", "dry_run")`: each flag option present and known is decoded. */
  method DecodeFlagOptions(raw: RawSection, decoded: Section) returns (root: Section)
    requires decoded.Keys == raw.Keys
    requires forall k :: k in raw ==> decoded[k] == PartlyDecoded(k, raw[k], ListOptions, [])
    ensures root.Keys == raw.Keys
    ensures forall k :: k in raw ==> root[k] == RootValue(k, raw[k])
  {
    root := decoded;
    for n := 0 to |BoolOptions|
      invariant root.Keys == raw.Keys
      invariant forall k :: k in raw ==> root[k] == PartlyDecoded(k, raw[k], ListOptions, BoolOptions[..n])
    {
      var name := BoolOptions[n];
      assert BoolOptions[..n + 1] == BoolOptions[..n] + [name];
      assert name !in ListOptions;
      if name in root {
        var flag := LoadsBool(raw[name]);
        if flag.Ok? {
          root := root[name := Flag(flag.value)];
        }
      }
    }
    assert BoolOptions[..|BoolOptions|] == BoolOptions;
  }

  /** The two `for ... in (...)` loops over the root section. */
  method DecodeRoot(raw: RawSection) returns (root: Section)
    ensures root.Keys == raw.Keys
    ensures forall k :: k in raw ==> root[k] == RootValue(k, raw[k])
  {
    var lists := DecodeListOptions(raw);
    root := DecodeFlagOptions(raw, lists);
  }

  /**
   * `ConfigurationIni.read`, from the parsed file on: `rootItems` are the options of
   * the section named by the parent keys joined with ":".
   */
  method ReadIni(parentKeys: seq<string>, rootItems: RawSection, sections: seq<(string, RawSection)>,
                 defaults: Section)
    returns (c: ConfigurationFile)
    ensures fresh(c) && c.Valid()
    ensures c.root.Keys == rootItems.Keys
    ensures forall k :: k in rootItems ==> c.root[k] == RootValue(k, rootItems[k])
    ensures c.part == Collect(ReadPartNames(Join(parentKeys, ':'), sections), DecodedSections(sections, "values"))
    ensures c.file.Keys == Collect(ReadFileNames(Join(parentKeys, ':'), sections), DecodedSections(sections, "serialize")).Keys
  {
    var prefix := Join(parentKeys, ':');
    var root := DecodeRoot(rootItems);
    var file, part := ReadSections(prefix, sections);
    c := new ConfigurationFile(root, part, file, defaults);
  }

  /**
   * `parse_ini`'s `re.match("^bumpversion:(file|part):(.+)", name)`: the name is the
   * rest of the first line, and must not be empty.
   */
  function ClassifyIniSection(section: string): SectionKind {
    var head := "bumpversion:";
    if !StartsWith(section, head) || |section| < |head| + 5 then Ignored
    else
      var which := section[|head|..|head| + 5];
      var rest := section[|head| + 5..];
      var name := rest[..IndexOf(rest, '\n')];
      if (which == "file:" || which == "part:") && name != [] then
        if which == "file:" then FileSection(name) else PartSection(name)
      else Ignored
  }

  /** A section name that is "bumpversion:file:" ("bumpversion:part:") and one line of text names that file (part). */
  lemma ClassifyIniSectionNames(name: string)
    requires name != [] && '\n' !in name
    ensures ClassifyIniSection("bumpversion:file:" + name) == FileSection(name)
    ensures ClassifyIniSection("bumpversion:part:" + name) == PartSection(name)
  {
    var f, p := "bumpversion:file:" + name, "bumpversion:part:" + name;
    assert f[..12] == "bumpversion:" && f[12..17] == "file:" && f[17..] == name;
    assert p[..12] == "bumpversion:" && p[12..17] == "part:" && p[17..] == name;
  }

  /** A section that `parse_ini` reads as a file or part carries that name on its first line, right after the kind. */
  lemma ClassifiedIniSectionHasName(section: string)
    ensures var kind := ClassifyIniSection(section);
      !kind.Ignored? ==>
        && kind.name != [] && '\n' !in kind.name
        && (if kind.FileSection? then "bumpversion:file:" else "bumpversion:part:") + kind.name <= section
  {
    var kind := ClassifyIniSection(section);
    if !kind.Ignored? {
      var rest := section[17..];
      assert kind.name == rest[..IndexOf(rest, '\n')];
      assert section == section[..17] + rest;
    }
  }

  /** What `parse_ini` builds a part from: numeric, or enumerated when it has `values`. */
  datatype PartKind = NumericPart | ConfiguredPart

  datatype PartConfiguration = PartConfiguration(kind: PartKind, options: Section)

  /**
   * A part section in `parse_ini`: it is enumerated exactly when it has a `values`
   * option, whose non-blank stripped lines become the values.
   */
  function PartConfigurationOf(raw: RawSection): (p: PartConfiguration)
    ensures p.kind == ConfiguredPart <==> "values" in raw
    ensures p.options.Keys == raw.Keys
    ensures "values" in raw ==> p.options["values"] == StrList(NonBlank(SplitLines(raw["values"])))
    ensures forall k :: k in raw && k != "values" ==> p.options[k] == Str(raw[k])
  {
    var options := map k | k in raw :: if k == "values" then StrList(NonBlank(SplitLines(raw[k]))) else Str(raw[k]);
    PartConfiguration(if "values" in raw then ConfiguredPart else NumericPart, options)
  }

  /**
   * A file section in `parse_ini`: `serialize` decoded (dropping blank lines after
   * unescaping is dropping them before, as unescaping never empties a line), then the
   * required keys filled from the defaults.
   */
  function IniFileConfig(raw: RawSection, defaults: Section): Section {
    Filled(Decoded(raw, "serialize"), defaults)
  }

  function IniPartNames(sections: seq<(string, RawSection)>): seq<Option<string>> {
    seq(|sections|, i requires 0 <= i < |sections| => PartName(ClassifyIniSection(sections[i].0)))
  }

  function IniPartConfigurations(sections: seq<(string, RawSection)>): seq<PartConfiguration> {
    seq(|sections|, i requires 0 <= i < |sections| => PartConfigurationOf(sections[i].1))
  }

  /** The files `parse_ini` lists, in section order. */
  function IniFiles(sections: seq<(string, RawSection)>, defaults: Section): seq<(string, Section)> {
    if sections == [] then []
    else
      var last := sections[|sections| - 1];
      var kind := ClassifyIniSection(last.0);
      IniFiles(sections[..|sections| - 1], defaults)
        + (if kind.FileSection? then [(kind.name, IniFileConfig(last.1, defaults))] else [])
  }

  /** The loop over `config.sections()` in `parse_ini`. */
  method ParseIniSections(sections: seq<(string, RawSection)>, defaults: Section)
    returns (parts: map<string, PartConfiguration>, files: seq<(string, Section)>)
    ensures parts == Collect(IniPartNames(sections), IniPartConfigurations(sections))
    ensures files == IniFiles(sections, defaults)
  {
    parts := map[];
    files := [];
    for i := 0 to |sections|
      invariant parts == Collect(IniPartNames(sections[..i]), IniPartConfigurations(sections[..i]))
      invariant files == IniFiles(sections[..i], defaults)
    {
      var (section, raw) := sections[i];
      ParseIniStep(sections, defaults, i);
      var kind := ClassifyIniSection(section);
      if kind.PartSection? {
        parts := parts[kind.name := PartConfigurationOf(raw)];
      } else if kind.FileSection? {
        var config := FillFileConfig(Decoded(raw, "serialize"), defaults);
        files := files + [(kind.name, config)];
      }
    }
    assert sections[..|sections|] == sections;
  }

  /** What one more section adds to the parts and files `parse_ini` has collected. */
  lemma ParseIniStep(sections: seq<(string, RawSection)>, defaults: Section, i: nat)
    requires i < |sections|
    ensures var kind := ClassifyIniSection(sections[i].0);
      var before := Collect(IniPartNames(sections[..i]), IniPartConfigurations(sections[..i]));
      && Collect(IniPartNames(sections[..i + 1]), IniPartConfigurations(sections[..i + 1]))
         == (if kind.PartSection? then before[kind.name := PartConfigurationOf(sections[i].1)] else before)
      && IniFiles(sections[..i + 1], defaults)
         == IniFiles(sections[..i], defaults)
            + (if kind.FileSection? then [(kind.name, IniFileConfig(sections[i].1, defaults))] else [])
  {
    assert sections[..i + 1][..i] == sections[..i];
    assert IniPartNames(sections[..i + 1])[..i] == IniPartNames(sections[..i]);
    assert IniPartConfigurations(sections[..i + 1])[..i] == IniPartConfigurations(sections[..i]);
  }

  /** Every file `parse_ini` lists comes from a file section and has all the required keys. */
  lemma {:induction false} IniFilesAreComplete(sections: seq<(string, RawSection)>, defaults: Section)
    ensures forall f :: f in IniFiles(sections, defaults) ==>
      RequiredFileKeys <= f.1.Keys && exists s :: s in sections && ClassifyIniSection(s.0) == FileSection(f.0)
  {
    if sections != [] {
      var n := |sections| - 1;
      var earlier, last := sections[..n], sections[n];
      IniFilesAreComplete(earlier, defaults);
      var kind := ClassifyIniSection(last.0);
      assert IniFiles(sections, defaults) == IniFiles(earlier, defaults)
        + (if kind.FileSection? then [(kind.name, IniFileConfig(last.1, defaults))] else []);
      forall f | f in IniFiles(sections, defaults)
        ensures RequiredFileKeys <= f.1.Keys
        ensures exists s :: s in sections && ClassifyIniSection(s.0) == FileSection(f.0)
      {
        if f in IniFiles(earlier, defaults) {
          var s :| s in earlier && ClassifyIniSection(s.0) == FileSection(f.0);
          assert s in sections;
        } else {
          FilledKeys(Decoded(last.1, "serialize"), defaults);
          assert last in sections;
        }
      }
    }
  }

  /**
   * A part `parse_ini` collects comes from the last section naming it, and is
   * enumerated exactly when that section has a `values` option.
   */
  lemma ParsedPartKind(sections: seq<(string, RawSection)>, name: string)
    ensures var parts := Collect(IniPartNames(sections), IniPartConfigurations(sections));
      name in parts ==>
        exists j :: 0 <= j < |sections| && ClassifyIniSection(sections[j].0) == PartSection(name)
          && (parts[name].kind == ConfiguredPart <==> "values" in sections[j].1)
          && forall k :: j < k < |sections| ==> ClassifyIniSection(sections[k].0) != PartSection(name)
  {
    var names, configs := IniPartNames(sections), IniPartConfigurations(sections);
    CollectLastWins(names, configs, name);
    if name in Collect(names, configs) {
      var j :| 0 <= j < |names| && names[j] == Some(name) && Collect(names, configs)[name] == configs[j]
               && forall k :: j < k < |names| ==> names[k] != Some(name);
      assert ClassifyIniSection(sections[j].0) == PartSection(name);
      forall k | j < k < |sections|
        ensures ClassifyIniSection(sections[k].0) != PartSection(name)
      {
        assert names[k] != Some(name);
      }
    }
  }
}
