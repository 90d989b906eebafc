/**
 * The few Python string built-ins the command menu relies on: `str.isspace`
 * (which is also the class that the regular-expression escape `\s` matches on
 * `str` patterns), `str.strip()`, `str.split(sep)`, and `"".join(parts)`;
 * `sep.join(parts)` is here only to characterise `split` as its inverse.
 */
module Text {

  /** CPython's whitespace class: the characters for which `str.isspace()` holds. */
  predicate IsSpace(c: char) {
    ('\t' <= c <= '\r') || ('\U{1C}' <= c <= '\U{1F}') || c == ' '
    || c == '\U{85}' || c == '\U{A0}' || c == '\U{1680}'
    || ('\U{2000}' <= c <= '\U{200A}') || c == '\U{2028}' || c == '\U{2029}'
    || c == '\U{202F}' || c == '\U{205F}' || c == '\U{3000}'
  }

  /** The regular-expression class `\d`, restricted to ASCII digits. */
  predicate IsDigit(c: char) {
    '0' <= c <= '9'
  }

  /** `s.lstrip()`. */
  function LStrip(s: string): string {
    if s != [] && IsSpace(s[0]) then LStrip(s[1..]) else s
  }

  /** `s.rstrip()`. */
  function RStrip(s: string): string {
    if s != [] && IsSpace(s[|s| - 1]) then RStrip(s[..|s| - 1]) else s
  }

  /** `s.strip()`. */
  function Strip(s: string): string {
    RStrip(LStrip(s))
  }

  /** `lstrip()` drops the longest all-whitespace prefix. */
  lemma {:induction false} LStripSpec(s: string)
    ensures |LStrip(s)| <= |s| && LStrip(s) == s[|s| - |LStrip(s)|..]
    ensures forall k :: 0 <= k < |s| - |LStrip(s)| ==> IsSpace(s[k])
    ensures LStrip(s) == [] || !IsSpace(LStrip(s)[0])
  {
    if s != [] && IsSpace(s[0]) {
      var t := s[1..];
      LStripSpec(t);
      var r := LStrip(t);
      assert LStrip(s) == r;
      assert t[|t| - |r|..] == s[|s| - |r|..];
      forall k | 0 <= k < |s| - |r|
        ensures IsSpace(s[k])
      {
        if k > 0 {
          assert s[k] == t[k - 1];
        }
      }
    }
  }

  /** `rstrip()` drops the longest all-whitespace suffix. */
  lemma {:induction false} RStripSpec(s: string)
    ensures |RStrip(s)| <= |s| && RStrip(s) == s[..|RStrip(s)|]
    ensures forall k :: |RStrip(s)| <= k < |s| ==> IsSpace(s[k])
    ensures RStrip(s) == [] || !IsSpace(RStrip(s)[|RStrip(s)| - 1])
  {
    if s != [] && IsSpace(s[|s| - 1]) {
      var t := s[..|s| - 1];
      RStripSpec(t);
      var r := RStrip(t);
      assert RStrip(s) == r;
      assert t[..|r|] == s[..|r|];
      forall k | |r| <= k < |s|
        ensures IsSpace(s[k])
      {
        if k < |s| - 1 {
          assert s[k] == t[k];
        }
      }
    }
  }

  /** `strip()` leaves a string that neither starts nor ends with whitespace. */
  lemma StripSpec(s: string)
    ensures Strip(s) == [] || (!IsSpace(Strip(s)[0]) && !IsSpace(Strip(s)[|Strip(s)| - 1]))
  {
    LStripSpec(s);
    RStripSpec(LStrip(s));
  }

  /** `strip()` removes characters and never adds one: a line without line feeds keeps none. */
  lemma StripKeepsNoNewline(s: string)
    requires '\n' !in s
    ensures '\n' !in Strip(s)
  {
    var l := LStrip(s);
    LStripSpec(s);
    RStripSpec(l);
    assert forall c :: c in l ==> c in s;
    assert forall c :: c in RStrip(l) ==> c in l;
  }

  /** `strip()` gives the empty string exactly for an all-whitespace string. */
  lemma StripEmpty(s: string)
    ensures Strip(s) == [] <==> forall k :: 0 <= k < |s| ==> IsSpace(s[k])
  {
    LStripSpec(s);
    RStripSpec(LStrip(s));
  }

  /** A string that neither starts nor ends with whitespace is its own `strip()`. */
  lemma StripUnchanged(s: string)
    requires s != [] && !IsSpace(s[0]) && !IsSpace(s[|s| - 1])
    ensures Strip(s) == s
  {
  }

  /** After `n` leading blanks, a non-blank character is the first one `strip()` keeps. */
  lemma StripFirst(s: string, n: nat)
    requires n < |s| && !IsSpace(s[n])
    requires forall k :: 0 <= k < n ==> IsSpace(s[k])
    ensures Strip(s) != [] && Strip(s)[0] == s[n]
  {
    var l := LStrip(s);
    LStripSpec(s);
    RStripSpec(l);
    assert |s| - |l| == n;
    assert l[0] == s[n];
  }

  /** `s.split(sep)`, for a one-character `sep`: the pieces between the occurrences of `sep`; never empty. */
  function Split(s: string, sep: char): (r: seq<string>)
    ensures |r| >= 1
    ensures forall i :: 0 <= i < |r| ==> sep !in r[i]
  {
    if s == [] then [[]]
    else if s[0] == sep then [[]] + Split(s[1..], sep)
    else
      var rest := Split(s[1..], sep);
      [[s[0]] + rest[0]] + rest[1..]
  }

  /** `[sep].join(parts)`. */
  function Join(parts: seq<string>, sep: char): string
  {
    if parts == [] then []
    else if |parts| == 1 then parts[0]
    else parts[0] + [sep] + Join(parts[1..], sep)
  }

  /** `"".join(parts)`. */
  function Concat(parts: seq<string>): string
  {
    if parts == [] then [] else parts[0] + Concat(parts[1..])
  }

  /** Joining the pieces back with the separator restores the text. */
  lemma {:induction false} JoinSplit(s: string, sep: char)
    ensures Join(Split(s, sep), sep) == s
  {
    if s == [] {
    } else if s[0] == sep {
      var rest := Split(s[1..], sep);
      JoinSplit(s[1..], sep);
      assert Split(s, sep) == [[]] + rest;
      assert ([[]] + rest)[1..] == rest;
    } else {
      var rest := Split(s[1..], sep);
      JoinSplit(s[1..], sep);
      var parts := [[s[0]] + rest[0]] + rest[1..];
      if |rest| == 1 {
        assert Join(parts, sep) == [s[0]] + rest[0];
      } else {
        assert parts[1..] == rest[1..];
        assert Join(rest, sep) == rest[0] + [sep] + Join(rest[1..], sep);
      }
    }
  }

  /** Splitting a text made of separator-free pieces gives the pieces back. */
  lemma {:induction false} SplitJoin(parts: seq<string>, sep: char)
    requires |parts| >= 1
    requires forall i :: 0 <= i < |parts| ==> sep !in parts[i]
    ensures Split(Join(parts, sep), sep) == parts
  {
    if |parts| == 1 {
      SplitNoSeparator(parts[0], sep);
    } else {
      SplitJoin(parts[1..], sep);
      SplitConcat(parts[0], Join(parts[1..], sep), sep);
      SplitNoSeparator(parts[0], sep);
      assert [parts[0]] + parts[1..] == parts;
    }
  }

  /** A text without the separator is a single piece. */
  lemma {:induction false} SplitNoSeparator(s: string, sep: char)
    requires sep !in s
    ensures Split(s, sep) == [s]
  {
    if s != [] {
      SplitNoSeparator(s[1..], sep);
      assert [s[0]] + s[1..] == s;
    }
  }

  /** Splitting `a + sep + b` splits `a` and `b` separately. */
  lemma {:induction false} SplitConcat(a: string, b: string, sep: char)
    ensures Split(a + [sep] + b, sep) == Split(a, sep) + Split(b, sep)
  {
    if a == [] {
      assert (a + [sep] + b)[1..] == b;
    } else {
      var s := a + [sep] + b;
      assert s[1..] == a[1..] + [sep] + b;
      SplitConcat(a[1..], b, sep);
      var ra := Split(a[1..], sep);
      var rb := Split(b, sep);
      var rs := Split(s[1..], sep);
      assert rs == ra + rb;
      assert s[0] == a[0];
      if a[0] == sep {
        assert Split(s, sep) == [[]] + rs;
        assert Split(a, sep) == [[]] + ra;
      } else {
        assert Split(s, sep) == [[s[0]] + rs[0]] + rs[1..];
        assert Split(a, sep) == [[a[0]] + ra[0]] + ra[1..];
        assert rs[0] == ra[0];
        assert rs[1..] == ra[1..] + rb;
      }
    }
  }

  /** `"".join` distributes over list concatenation. */
  lemma {:induction false} ConcatAppend(a: seq<string>, b: seq<string>)
    ensures Concat(a + b) == Concat(a) + Concat(b)
  {
    if a == [] {
      assert a + b == b;
    } else {
      assert (a + b)[1..] == a[1..] + b;
      ConcatAppend(a[1..], b);
    }
  }
}
