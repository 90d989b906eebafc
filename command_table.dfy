/**
 * `parse_commands`: the menu text produced by the language model, one numbered command
 * per line, turned into a dictionary from menu number to shell command.
 */
module CommandTable {
  import opened Wrappers
  import opened Text

  /** A Python `dict[str, str]`: its keys in insertion order and its key-to-value map. */
  datatype Table = Table(keys: seq<string>, entries: map<string, string>) {

    /** The dictionary invariant: each key listed once, and exactly the keys of the map. */
    ghost predicate Valid() {
      && (forall i, j :: 0 <= i < j < |keys| ==> keys[i] != keys[j])
      && (forall k :: k in entries <==> k in keys)
    }

    /** `d[k] = v`: a new key goes to the end of the order, an existing key keeps its place. */
    function Insert(k: string, v: string): (t: Table)
      ensures Valid() ==> t.Valid()
      ensures t.keys == if k in entries then keys else keys + [k]
      ensures k in t.entries && t.entries[k] == v
      ensures forall j :: j != k ==> (j in t.entries <==> j in entries) && (j in entries ==> t.entries[j] == entries[j])
    {
      Table(if k in entries then keys else keys + [k], entries[k := v])
    }
  }

  /** The dictionary `{}`. */
  const Empty := Table([], map[])

  /** A menu key: a non-empty run of ASCII digits. */
  predicate IsKey(k: string) {
    |k| >= 1 && forall i :: 0 <= i < |k| ==> IsDigit(k[i])
  }

  /** A command taken from a stripped line: non-empty, one line, no trailing whitespace. */
  predicate IsCommand(c: string) {
    |c| >= 1 && '\n' !in c && !IsSpace(c[|c| - 1])
  }

  /** Every entry has a menu key and a well-formed command. */
  ghost predicate WellFormed(t: Table) {
    forall k :: k in t.entries ==> IsKey(k) && IsCommand(t.entries[k])
  }

  /** Number of ASCII digits at the start of `s`: what `\d+` consumes. */
  function DigitRun(s: string): (n: nat)
    ensures n <= |s|
  {
    if s != [] && IsDigit(s[0]) then 1 + DigitRun(s[1..]) else 0
  }

  /** Number of characters of `s` before its first line feed: what `.+` consumes. */
  function LineRun(s: string): (n: nat)
    ensures n <= |s|
  {
    if s != [] && s[0] != '\n' then 1 + LineRun(s[1..]) else 0
  }

  /** `\d+` takes the whole leading run of digits and stops at the first non-digit. */
  lemma {:induction false} DigitRunSpec(s: string)
    ensures forall k :: 0 <= k < DigitRun(s) ==> IsDigit(s[k])
    ensures DigitRun(s) < |s| ==> !IsDigit(s[DigitRun(s)])
  {
    if s != [] && IsDigit(s[0]) {
      DigitRunSpec(s[1..]);
    }
  }

  /** `.+` runs up to, and not over, the first line feed. */
  lemma {:induction false} LineRunSpec(s: string)
    ensures forall k :: 0 <= k < LineRun(s) ==> s[k] != '\n'
    ensures LineRun(s) < |s| ==> s[LineRun(s)] == '\n'
  {
    if s != [] && s[0] != '\n' {
      LineRunSpec(s[1..]);
    }
  }

  /**
   * Declarative reading of `re.match(r"(\d+)\)\s(.+)", s)` with groups `key` and
   * `command`: anchored at the start of `s` but not at its end, `\s` one whitespace
   * character, `.` any character but a line feed, both repetitions greedy.
   */
  ghost predicate Matches(s: string, key: string, command: string) {
    && IsKey(key)
    && |command| >= 1 && '\n' !in command
    && |key| + 2 + |command| <= |s|
    && s[..|key|] == key
    && s[|key|] == ')'
    && IsSpace(s[|key| + 1])
    && s[|key| + 2..|key| + 2 + |command|] == command
    && (|key| + 2 + |command| == |s| || s[|key| + 2 + |command|] == '\n')
  }

  /** The regular-expression match of one string: `Some((key, command))` or `None`. */
  function MatchEntry(s: string): Option<(string, string)> {
    var n := DigitRun(s);
    if n >= 1 && n + 2 <= |s| && s[n] == ')' && IsSpace(s[n + 1]) then
      var c := LineRun(s[n + 2..]);
      if c >= 1 then Some((s[..n], s[n + 2..n + 2 + c])) else None
    else None
  }

  /** Every match the function reports is a match of the regular expression. */
  lemma MatchEntrySound(s: string)
    requires MatchEntry(s).Some?
    ensures Matches(s, MatchEntry(s).value.0, MatchEntry(s).value.1)
  {
    DigitRunSpec(s);
    LineRunSpec(s[DigitRun(s) + 2..]);
  }

  /** Every match of the regular expression is the one the function reports: the match is unique. */
  lemma MatchEntryComplete(s: string, key: string, command: string)
    requires Matches(s, key, command)
    ensures MatchEntry(s) == Some((key, command))
  {
    var n := DigitRun(s);
    DigitRunSpec(s);
    assert n == |key|;
    var c := LineRun(s[n + 2..]);
    LineRunSpec(s[n + 2..]);
    assert c == |command|;
  }

  /** What one line contributes: the match of the stripped line. */
  function Entry(line: string): Option<(string, string)> {
    MatchEntry(Strip(line))
  }

  /** The match of each line, in order. */
  function Entries(lines: seq<string>): (es: seq<Option<(string, string)>>)
    ensures |es| == |lines|
    decreases |lines|
  {
    if lines == [] then [] else Entries(lines[..|lines| - 1]) + [Entry(lines[|lines| - 1])]
  }

  /** Match `e` is a line carrying key `k`. */
  predicate HasKey(e: Option<(string, string)>, k: string) {
    e.Some? && e.value.0 == k
  }

  /** One iteration of the loop of `parse_commands`, given the match of its line. */
  function Store(t: Table, e: Option<(string, string)>): Table {
    match e
    case None => t
    case Some((key, command)) => t.Insert(key, command)
  }

  /** The dictionary after the loop has stored the matches `es`, starting from `t`. */
  function Build(t: Table, es: seq<Option<(string, string)>>): Table
    decreases |es|
  {
    if es == [] then t else Store(Build(t, es[..|es| - 1]), es[|es| - 1])
  }

  /** The value `parse_commands(text)` returns. */
  function Parse(text: string): Table {
    Build(Empty, Entries(Split(text, '\n')))
  }

  /** `parse_commands(input_string)`: the loop that fills `command_map` line by line. */
  method ParseCommands(input: string) returns (t: Table)
    ensures t == Parse(input)
    ensures t.Valid() && WellFormed(t)
  {
    var commandMap: map<string, string> := map[];
    var order: seq<string> := [];
    var lines := Split(input, '\n');
    for i := 0 to |lines|
      invariant Table(order, commandMap) == Build(Empty, Entries(lines[..i]))
    {
      assert lines[..i + 1][..i] == lines[..i];
      var m := MatchEntry(Strip(lines[i]));
      if m.Some? {
        var (key, command) := m.value;
        if key !in commandMap {
          order := order + [key];
        }
        commandMap := commandMap[key := command];
      }
    }
    assert lines[..|lines|] == lines;
    t := Table(order, commandMap);
    ParseWellFormed(input);
  }

  /** A matching line without line feeds yields a menu key and a well-formed command. */
  lemma EntryWellFormed(line: string)
    requires '\n' !in line
    requires Entry(line).Some?
    ensures IsKey(Entry(line).value.0) && IsCommand(Entry(line).value.1)
  {
    var s := Strip(line);
    var (k, c) := Entry(line).value;
    MatchEntrySound(s);
    StripSpec(line);
    StripKeepsNoNewline(line);
    assert |k| + 2 + |c| == |s|;
    assert c[|c| - 1] == s[|s| - 1];
  }

  /** Storing well-formed matches keeps the dictionary invariant and well-formed entries. */
  lemma {:induction false} BuildWellFormed(t: Table, es: seq<Option<(string, string)>>)
    requires t.Valid() && WellFormed(t)
    requires forall i :: 0 <= i < |es| && es[i].Some? ==> IsKey(es[i].value.0) && IsCommand(es[i].value.1)
    ensures Build(t, es).Valid() && WellFormed(Build(t, es))
  {
    if es != [] {
      BuildWellFormed(t, es[..|es| - 1]);
    }
  }

  /** Every key of `parse_commands(text)` is a digit run and every command is well formed. */
  lemma ParseWellFormed(text: string)
    ensures Parse(text).Valid() && WellFormed(Parse(text))
  {
    var lines := Split(text, '\n');
    var es := Entries(lines);
    forall i | 0 <= i < |es| && es[i].Some?
      ensures IsKey(es[i].value.0) && IsCommand(es[i].value.1)
    {
      EntryAt(lines, i);
      EntryWellFormed(lines[i]);
    }
    BuildWellFormed(Empty, es);
  }

  /** Running the loop over `a + b` is running it over `a`, then over `b`. */
  lemma {:induction false} BuildAppend(t: Table, a: seq<Option<(string, string)>>, b: seq<Option<(string, string)>>)
    ensures Build(t, a + b) == Build(Build(t, a), b)
  {
    if b == [] {
      assert a + b == a;
    } else {
      assert (a + b)[..|a + b| - 1] == a + b[..|b| - 1];
      BuildAppend(t, a, b[..|b| - 1]);
    }
  }

  /** Matches that never carry key `k` leave its entry, or its absence, untouched. */
  lemma {:induction false} BuildKeepsKey(t: Table, es: seq<Option<(string, string)>>, k: string)
    requires forall j :: 0 <= j < |es| ==> !HasKey(es[j], k)
    ensures k in Build(t, es).entries <==> k in t.entries
    ensures k in t.entries ==> Build(t, es).entries[k] == t.entries[k]
  {
    if es != [] {
      BuildKeepsKey(t, es[..|es| - 1], k);
    }
  }

  /** A key is in the dictionary exactly when some line matched with that key. */
  lemma {:induction false} BuildHasKey(es: seq<Option<(string, string)>>, k: string)
    ensures k in Build(Empty, es).entries <==> exists i :: 0 <= i < |es| && HasKey(es[i], k)
  {
    if es != [] {
      var init := es[..|es| - 1];
      BuildHasKey(init, k);
      if exists i :: 0 <= i < |init| && HasKey(init[i], k) {
        var i :| 0 <= i < |init| && HasKey(init[i], k);
        assert HasKey(es[i], k);
      }
      if exists i :: 0 <= i < |es| && HasKey(es[i], k) {
        var i :| 0 <= i < |es| && HasKey(es[i], k);
        if i < |init| {
          assert HasKey(init[i], k);
        }
      }
    }
  }

  /** Duplicate keys: the value kept is the command of the last match carrying that key. */
  lemma {:induction false} BuildLastWriteWins(es: seq<Option<(string, string)>>, i: nat, k: string, c: string)
    requires i < |es| && es[i] == Some((k, c))
    requires forall j :: i < j < |es| ==> !HasKey(es[j], k)
    ensures k in Build(Empty, es).entries && Build(Empty, es).entries[k] == c
  {
    if i < |es| - 1 {
      BuildLastWriteWins(es[..|es| - 1], i, k, c);
    }
  }

  /** `parse_commands` holds key `k` exactly when some line of the text matched with key `k`. */
  lemma ParseHasKey(text: string, k: string)
    ensures k in Parse(text).entries <==>
      exists i :: 0 <= i < |Split(text, '\n')| && HasKey(Entry(Split(text, '\n')[i]), k)
  {
    var lines := Split(text, '\n');
    var es := Entries(lines);
    BuildHasKey(es, k);
    forall i | 0 <= i < |lines| ensures es[i] == Entry(lines[i]) {
      EntryAt(lines, i);
    }
  }

  /** A stored key comes from a last match carrying it, and its command is that match's. */
  lemma {:induction false} BuildLastEntry(es: seq<Option<(string, string)>>, k: string)
    requires k in Build(Empty, es).entries
    ensures exists i :: 0 <= i < |es| && es[i] == Some((k, Build(Empty, es).entries[k]))
                        && forall j :: i < j < |es| ==> !HasKey(es[j], k)
  {
    var init := es[..|es| - 1];
    if !HasKey(es[|es| - 1], k) {
      BuildLastEntry(init, k);
      var i :| 0 <= i < |init| && init[i] == Some((k, Build(Empty, init).entries[k]))
               && forall j :: i < j < |init| ==> !HasKey(init[j], k);
      assert es[i] == init[i];
      forall j | i < j < |es|
        ensures !HasKey(es[j], k)
      {
        if j < |init| {
          assert es[j] == init[j];
        }
      }
    }
  }

  /** A key of `parse_commands(text)` maps to the command of the last line that matched with it. */
  lemma LastLineOfKey(text: string, k: string)
    requires k in Parse(text).entries
    ensures exists i :: 0 <= i < |Split(text, '\n')|
                        && Entry(Split(text, '\n')[i]) == Some((k, Parse(text).entries[k]))
                        && forall j :: i < j < |Split(text, '\n')| ==> !HasKey(Entry(Split(text, '\n')[j]), k)
  {
    var lines := Split(text, '\n');
    var es := Entries(lines);
    forall i | 0 <= i < |lines| ensures es[i] == Entry(lines[i]) {
      EntryAt(lines, i);
    }
    BuildLastEntry(es, k);
  }

  /** Duplicate keys in `parse_commands`: the command kept is that of the last line with the key. */
  lemma LastWriteWins(text: string, i: nat, k: string, c: string)
    requires i < |Split(text, '\n')| && Entry(Split(text, '\n')[i]) == Some((k, c))
    requires forall j :: i < j < |Split(text, '\n')| ==> !HasKey(Entry(Split(text, '\n')[j]), k)
    ensures k in Parse(text).entries && Parse(text).entries[k] == c
  {
    var lines := Split(text, '\n');
    var es := Entries(lines);
    forall j | i <= j < |lines| ensures es[j] == Entry(lines[j]) {
      EntryAt(lines, j);
    }
    BuildLastWriteWins(es, i, k, c);
  }

  /** The match at position `i` is the match of line `i`. */
  lemma {:induction false} EntryAt(lines: seq<string>, i: nat)
    requires i < |lines|
    ensures Entries(lines)[i] == Entry(lines[i])
  {
    if i < |lines| - 1 {
      EntryAt(lines[..|lines| - 1], i);
    }
  }

  lemma {:induction false} EntriesAppend(a: seq<string>, b: seq<string>)
    ensures Entries(a + b) == Entries(a) + Entries(b)
  {
    if b == [] {
      assert a + b == a;
    } else {
      assert (a + b)[..|a + b| - 1] == a + b[..|b| - 1];
      EntriesAppend(a, b[..|b| - 1]);
    }
  }

  /** A non-matching line stored between `a` and `b` changes nothing. */
  lemma BuildSkip(a: seq<Option<(string, string)>>, b: seq<Option<(string, string)>>)
    ensures Build(Empty, a + [None] + b) == Build(Empty, a + b)
  {
    var skip: seq<Option<(string, string)>> := [None];
    BuildAppend(Empty, a + skip, b);
    BuildAppend(Empty, a, skip);
    assert Build(Build(Empty, a), skip) == Build(Empty, a) by {
      assert skip[..0] == [];
    }
    BuildAppend(Empty, a, b);
  }

  /** A line that does not match adds nothing, wherever it stands. */
  lemma NonMatchingLineIgnored(a: string, line: string, b: string)
    requires '\n' !in line && Entry(line).None?
    ensures Parse(a + "\n" + line + "\n" + b) == Parse(a + "\n" + b)
  {
    var la, lb := Split(a, '\n'), Split(b, '\n');
    SplitAround(a, line, b);
    SplitConcat(a, b, '\n');
    EntriesAround(la, line, lb);
    EntriesAppend(la, lb);
    BuildSkip(Entries(la), Entries(lb));
  }

  /** A first line that does not match adds nothing. */
  lemma FirstLineIgnored(line: string, b: string)
    requires '\n' !in line && Entry(line).None?
    ensures Parse(line + "\n" + b) == Parse(b)
  {
    var lb := Split(b, '\n');
    SplitConcat(line, b, '\n');
    SplitNoSeparator(line, '\n');
    EntriesAppend([line], lb);
    EntriesOne(line);
    var none: seq<Option<(string, string)>> := [];
    BuildSkip(none, Entries(lb));
    assert none + [None] + Entries(lb) == Entries([line] + lb);
    assert none + Entries(lb) == Entries(lb);
  }

  /** A last line that does not match adds nothing. */
  lemma LastLineIgnored(a: string, line: string)
    requires '\n' !in line && Entry(line).None?
    ensures Parse(a + "\n" + line) == Parse(a)
  {
    ParseSnoc(a, line);
  }

  /** The lines of `a + "\n" + line + "\n" + b`, for a line without line feeds. */
  lemma SplitAround(a: string, line: string, b: string)
    requires '\n' !in line
    ensures Split(a + "\n" + line + "\n" + b, '\n') == Split(a, '\n') + [line] + Split(b, '\n')
  {
    assert a + "\n" + line + "\n" + b == a + ['\n'] + (line + ['\n'] + b);
    SplitConcat(a, line + "\n" + b, '\n');
    SplitConcat(line, b, '\n');
    SplitNoSeparator(line, '\n');
  }

  lemma EntriesAround(a: seq<string>, line: string, b: seq<string>)
    ensures Entries(a + [line] + b) == Entries(a) + [Entry(line)] + Entries(b)
  {
    EntriesAppend(a + [line], b);
    EntriesAppend(a, [line]);
    EntriesOne(line);
  }

  /** Text in which no line matches gives the empty dictionary, not an error. */
  lemma NoEntriesGiveEmpty(text: string)
    requires forall i :: 0 <= i < |Split(text, '\n')| ==> Entry(Split(text, '\n')[i]).None?
    ensures Parse(text) == Empty
  {
    var lines := Split(text, '\n');
    forall i | 0 <= i < |lines| ensures Entries(lines)[i].None? {
      EntryAt(lines, i);
    }
    BuildNothing(Entries(lines));
  }

  lemma {:induction false} BuildNothing(es: seq<Option<(string, string)>>)
    requires forall i :: 0 <= i < |es| ==> es[i].None?
    ensures Build(Empty, es) == Empty
  {
    if es != [] {
      BuildNothing(es[..|es| - 1]);
    }
  }

  /** The keys of `ks` not yet in `m`, in order. */
  function Unseen(ks: seq<string>, m: map<string, string>): seq<string>
    decreases |ks|
  {
    if ks == [] then []
    else Unseen(ks[..|ks| - 1], m) + (if ks[|ks| - 1] in m then [] else [ks[|ks| - 1]])
  }

  lemma {:induction false} UnseenAppend(a: seq<string>, b: seq<string>, m: map<string, string>)
    ensures Unseen(a + b, m) == Unseen(a, m) + Unseen(b, m)
  {
    if b == [] {
      assert a + b == a;
    } else {
      assert (a + b)[..|a + b| - 1] == a + b[..|b| - 1];
      UnseenAppend(a, b[..|b| - 1], m);
    }
  }

  /** `t | u`: the entries of `u` override those of `t`; new keys follow `t`'s, in `u`'s order. */
  function Merge(t: Table, u: Table): Table {
    Table(t.keys + Unseen(u.keys, t.entries), t.entries + u.entries)
  }

  lemma OverrideUpdate(a: map<string, string>, b: map<string, string>, k: string, c: string)
    ensures (a + b)[k := c] == a + b[k := c]
  {
  }

  /** Storing one entry commutes with merging. */
  lemma InsertMerge(t: Table, u: Table, k: string, c: string)
    ensures Merge(t, u).Insert(k, c) == Merge(t, u.Insert(k, c))
  {
    OverrideUpdate(t.entries, u.entries, k, c);
    InsertMergeKeys(t, u, k);
  }

  lemma InsertMergeKeys(t: Table, u: Table, k: string)
    ensures (if k in t.entries + u.entries then t.keys + Unseen(u.keys, t.entries)
             else t.keys + Unseen(u.keys, t.entries) + [k])
         == t.keys + Unseen(if k in u.entries then u.keys else u.keys + [k], t.entries)
  {
    if k !in u.entries {
      UnseenAppend(u.keys, [k], t.entries);
      assert [k][..0] == [];
    }
  }

  /** Running the loop from `t` equals merging `t` with the dictionary built from scratch. */
  lemma {:induction false} BuildMerge(t: Table, es: seq<Option<(string, string)>>)
    ensures Build(t, es) == Merge(t, Build(Empty, es))
  {
    if es == [] {
      assert t.entries + map[] == t.entries;
      assert t.keys + [] == t.keys;
    } else {
      var init := es[..|es| - 1];
      BuildMerge(t, init);
      var e := es[|es| - 1];
      if e.Some? {
        InsertMerge(t, Build(Empty, init), e.value.0, e.value.1);
      }
    }
  }

  /** Compositionality: parsing `a + "\n" + b` is parsing `a`, then letting `b`'s entries override. */
  lemma ParseConcat(a: string, b: string)
    ensures Parse(a + "\n" + b) == Merge(Parse(a), Parse(b))
  {
    SplitConcat(a, b, '\n');
    EntriesAppend(Split(a, '\n'), Split(b, '\n'));
    BuildAppend(Empty, Entries(Split(a, '\n')), Entries(Split(b, '\n')));
    BuildMerge(Parse(a), Entries(Split(b, '\n')));
  }

  /** A line whose first non-blank character is not a digit never matches: comment lines, free text. */
  lemma NoDigitFirstNoEntry(line: string, n: nat)
    requires n < |line| && !IsSpace(line[n]) && !IsDigit(line[n])
    requires forall k :: 0 <= k < n ==> IsSpace(line[k])
    ensures Entry(line).None?
  {
    StripFirst(line, n);
  }

  /** A command line whose stripped form is itself matches with its own groups. */
  lemma EntryOf(line: string, key: string, command: string)
    requires line != [] && !IsSpace(line[0]) && !IsSpace(line[|line| - 1])
    requires Matches(line, key, command)
    ensures Entry(line) == Some((key, command))
  {
    StripUnchanged(line);
    MatchEntryComplete(line, key, command);
  }

  /** `\s` consumes exactly one blank: `"1)  ls"` keeps the second space in its command. */
  lemma DoubleSpaceKept()
    ensures Entry("1)  ls") == Some(("1", " ls"))
  {
    var s := "1)  ls";
    assert s[..1] == "1" && s[3..6] == " ls";
    EntryOf(s, "1", " ls");
  }

  /** `\s` is any blank, not only a space. */
  lemma TabSeparatorAccepted()
    ensures Entry("7)\tpwd") == Some(("7", "pwd"))
  {
    var s := "7)\tpwd";
    assert s[..1] == "7" && s[3..6] == "pwd";
    EntryOf(s, "7", "pwd");
  }

  /** A number with nothing after it is not an entry once the line is stripped. */
  lemma BareNumberIgnored()
    ensures Entry("3) ") == None
  {
  }

  /** A single line parses to what its match stores in the empty dictionary. */
  lemma ParseLine(line: string)
    requires '\n' !in line
    ensures Parse(line) == Store(Empty, Entry(line))
  {
    SplitNoSeparator(line, '\n');
    EntriesOne(line);
    BuildOne(Empty, Entry(line));
  }

  lemma EntriesOne(line: string)
    ensures Entries([line]) == [Entry(line)]
  {
    assert [line][..0] == [];
  }

  lemma BuildOne(t: Table, e: Option<(string, string)>)
    ensures Build(t, [e]) == Store(t, e)
  {
    assert [e][..0] == [];
  }

  /** Appending one more line to the text runs one more iteration of the loop. */
  lemma ParseSnoc(text: string, line: string)
    requires '\n' !in line
    ensures Parse(text + "\n" + line) == Store(Parse(text), Entry(line))
  {
    var lines := Split(text, '\n');
    SplitConcat(text, line, '\n');
    SplitNoSeparator(line, '\n');
    EntriesAppend(lines, [line]);
    EntriesOne(line);
    var es := Entries(lines) + [Entry(line)];
    assert es[..|es| - 1] == Entries(lines);
  }

  /** The lines of the examples below, each matched on its own. */
  lemma EntryOneA()
    ensures Entry("1) a") == Some(("1", "a"))
  {
    var l := "1) a";
    assert l[..1] == "1" && l[3..4] == "a";
    EntryOf(l, "1", "a");
  }

  lemma EntryOneB()
    ensures Entry("1) b") == Some(("1", "b"))
  {
    var l := "1) b";
    assert l[..1] == "1" && l[3..4] == "b";
    EntryOf(l, "1", "b");
  }

  lemma EntryZeroOneA()
    ensures Entry("01) a") == Some(("01", "a"))
  {
    var l := "01) a";
    assert l[..2] == "01" && l[4..5] == "a";
    EntryOf(l, "01", "a");
  }

  /** Duplicate keys: `"1) a\n1) b"` keeps the later command. */
  lemma DuplicateKeyExample()
    ensures Parse("1) a" + "\n" + "1) b") == Table(["1"], map["1" := "b"])
  {
    EntryOneA();
    EntryOneB();
    ParseTwoLines("1) a", "1) b");
    OverwriteSameKey("1", "a", "b");
  }

  lemma OverwriteSameKey(k: string, a: string, b: string)
    ensures Store(Store(Empty, Some((k, a))), Some((k, b))) == Table([k], map[k := b])
  {
    assert map[k := a][k := b] == map[k := b];
  }

  /** Two lines parse to what two iterations of the loop store, starting from the empty dictionary. */
  lemma ParseTwoLines(a: string, b: string)
    requires '\n' !in a && '\n' !in b
    ensures Parse(a + "\n" + b) == Store(Store(Empty, Entry(a)), Entry(b))
  {
    ParseLine(a);
    ParseSnoc(a, b);
  }

  /** Keys are compared as text: `"01"` and `"1"` are two different entries. */
  lemma LeadingZeroKeyExample()
    ensures Parse("01) a" + "\n" + "1) b") == Table(["01", "1"], map["01" := "a", "1" := "b"])
  {
    EntryZeroOneA();
    EntryOneB();
    ParseTwoLines("01) a", "1) b");
    StoreTwoKeys("01", "a", "1", "b");
  }

  lemma StoreTwoKeys(k1: string, a: string, k2: string, b: string)
    requires k1 != k2
    ensures Store(Store(Empty, Some((k1, a))), Some((k2, b))) == Table([k1, k2], map[k1 := a, k2 := b])
  {
  }

  /** A line `key) command`, with a single blank after the parenthesis, is the entry `(key, command)`. */
  lemma OptionLineEntry(key: string, blank: char, command: string)
    requires IsKey(key) && IsSpace(blank) && IsCommand(command)
    ensures Entry(key + [')', blank] + command) == Some((key, command))
  {
    var l := key + [')', blank] + command;
    assert l[..|key|] == key;
    assert l[|key| + 2..|key| + 2 + |command|] == command;
    assert l[0] == key[0] && IsDigit(key[0]);
    assert l[|l| - 1] == command[|command| - 1];
    EntryOf(l, key, command);
  }

  /** An indented line whose first visible character is neither blank nor a digit is no entry. */
  lemma IndentedTextNoEntry(indent: string, text: string)
    requires forall k :: 0 <= k < |indent| ==> IsSpace(indent[k])
    requires text != [] && !IsSpace(text[0]) && !IsDigit(text[0])
    ensures Entry(indent + text).None?
  {
    NoDigitFirstNoEntry(indent + text, |indent|);
  }

  /**
   * The menu example the prompt shows the language model: two numbered commands, each
   * followed by an indented `↳` comment, with a blank line between the options.
   */
  const ExampleCommand1 := "grep \"your_string\" file.txt"
  const ExampleCommand2 := "grep \"your_string\" /path/to/directory/*"
  const ExampleOption1 := "1" + [')', ' '] + ExampleCommand1
  const ExampleComment1 := "    " + "↳ searches for \"your_string\" in file.txt."
  const ExampleOption2 := "2" + [')', ' '] + ExampleCommand2
  const ExampleComment2 := "    " + "↳ searches all files in directory"
  const ExampleMenu := ExampleOption1 + "\n" + ExampleComment1 + "\n" + "" + "\n" + ExampleOption2 + "\n" + ExampleComment2

  /** The numbered lines of the menu example given to the language model. */
  lemma FirstPromptEntry()
    ensures Entry(ExampleOption1) == Some(("1", ExampleCommand1))
  {
    OptionLineEntry("1", ' ', ExampleCommand1);
  }

  lemma SecondPromptEntry()
    ensures Entry(ExampleOption2) == Some(("2", ExampleCommand2))
  {
    OptionLineEntry("2", ' ', ExampleCommand2);
  }

  /** The comment lines of the menu example given to the language model. */
  lemma FirstPromptComment()
    ensures Entry(ExampleComment1) == None
  {
    IndentedTextNoEntry("    ", "↳ searches for \"your_string\" in file.txt.");
  }

  lemma SecondPromptComment()
    ensures Entry(ExampleComment2) == None
  {
    IndentedTextNoEntry("    ", "↳ searches all files in directory");
  }

  /** Five lines: five iterations of the loop. */
  lemma ParseFiveLines(l1: string, l2: string, l3: string, l4: string, l5: string)
    requires '\n' !in l1 && '\n' !in l2 && '\n' !in l3 && '\n' !in l4 && '\n' !in l5
    ensures Parse(l1 + "\n" + l2 + "\n" + l3 + "\n" + l4 + "\n" + l5)
         == Store(Store(Store(Store(Store(Empty, Entry(l1)), Entry(l2)), Entry(l3)), Entry(l4)), Entry(l5))
  {
    ParseTwoLines(l1, l2);
    ParseSnoc(l1 + "\n" + l2, l3);
    ParseSnoc(l1 + "\n" + l2 + "\n" + l3, l4);
    ParseSnoc(l1 + "\n" + l2 + "\n" + l3 + "\n" + l4, l5);
  }

  /** The menu example given to the language model: two entries; comment lines and the blank line add nothing. */
  lemma PromptExample()
    ensures Parse(ExampleMenu)
         == Table(["1", "2"], map["1" := ExampleCommand1, "2" := ExampleCommand2])
  {
    PromptLines();
    FirstPromptEntry();
    FirstPromptComment();
    SecondPromptEntry();
    SecondPromptComment();
    TwoEntriesAmongNoise("1", ExampleCommand1, "2", ExampleCommand2);
  }

  lemma PromptLines()
    ensures Parse(ExampleMenu)
         == Store(Store(Store(Store(Store(Empty, Entry(ExampleOption1)), Entry(ExampleComment1)), Entry("")),
                        Entry(ExampleOption2)), Entry(ExampleComment2))
  {
    ParseFiveLines(ExampleOption1, ExampleComment1, "", ExampleOption2, ExampleComment2);
  }

  lemma TwoEntriesAmongNoise(k1: string, c1: string, k2: string, c2: string)
    requires k1 != k2
    ensures Store(Store(Store(Store(Store(Empty, Some((k1, c1))), None), None), Some((k2, c2))), None)
         == Table([k1, k2], map[k1 := c1, k2 := c2])
  {
  }
}
