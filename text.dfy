/** The few `java.lang.String` operations the core relies on, over `seq<char>`:
    `trim` (and the `trim().isEmpty()` blank test), `split` on a one-character
    separator, and the decimal rendering of an `int` used in `"r" + nextId`. */
module Text {

  /** `String.trim` removes every leading and trailing character whose code is
      at most U+0020. */
  predicate IsTrimmable(c: char) {
    c <= ' '
  }

  function TrimStart(s: string): (r: string)
    ensures |r| <= |s| && r == s[|s| - |r|..]
    ensures forall i :: 0 <= i < |s| - |r| ==> IsTrimmable(s[i])
    ensures r == [] || !IsTrimmable(r[0])
    decreases |s|
  {
    if |s| > 0 && IsTrimmable(s[0]) then TrimStart(s[1..]) else s
  }

  function TrimEnd(s: string): (r: string)
    ensures |r| <= |s| && r == s[..|r|]
    ensures forall i :: |r| <= i < |s| ==> IsTrimmable(s[i])
    ensures r == [] || !IsTrimmable(r[|r| - 1])
    decreases |s|
  {
    if |s| > 0 && IsTrimmable(s[|s| - 1]) then TrimEnd(s[..|s| - 1]) else s
  }

  /** `s.trim()`: the result is empty exactly when every character of `s` is
      trimmable, and otherwise starts and ends with a character that is not
      (`TrimIsSlice` adds that it is the slice of `s` between trimmable ends). */
  function Trim(s: string): (r: string)
    ensures |r| <= |s|
    ensures r == [] <==> forall i :: 0 <= i < |s| ==> IsTrimmable(s[i])
    ensures r != [] ==> !IsTrimmable(r[0]) && !IsTrimmable(r[|r| - 1])
  {
    var front := TrimStart(s);
    var r := TrimEnd(front);
    if front == [] then
      r
    else
      assert front[0] == s[|s| - |front|] && !IsTrimmable(front[0]);
      assert r != [];
      assert r[0] == front[0];
      r
  }

  /** `s.trim()` is `s` with only trimmable characters removed, and only from
      its two ends: together with the ends `Trim` ensures, this pins the result
      down to the longest such slice. */
  lemma TrimIsSlice(s: string)
    ensures exists a, b :: && 0 <= a <= b <= |s| && Trim(s) == s[a..b]
                           && (forall i :: 0 <= i < a ==> IsTrimmable(s[i]))
                           && (forall i :: b <= i < |s| ==> IsTrimmable(s[i]))
  {
    var front := TrimStart(s);
    var r := TrimEnd(front);
    var a := |s| - |front|;
    var b := a + |r|;
    assert Trim(s) == s[a..b] by {
      assert Trim(s) == r;
      assert front == s[a..];
      assert r == front[..|r|];
    }
    assert forall i :: b <= i < |s| ==> IsTrimmable(s[i]) by {
      forall i | b <= i < |s|
        ensures IsTrimmable(s[i])
      {
        assert front == s[a..];
        assert s[i] == front[i - a];
      }
    }
  }

  /** `s == null || s.trim().isEmpty()` for a present string. */
  predicate IsBlank(s: string) {
    Trim(s) == []
  }

  /** Trimming twice is trimming once: a trimmed id, name or document is
      stored as it would be read back. */
  lemma TrimIdempotent(s: string)
    ensures Trim(Trim(s)) == Trim(s)
  {
    var t := Trim(s);
    if t != [] {
      assert TrimStart(t) == t;
      assert TrimEnd(t) == t;
    }
  }

  /** Every piece between separators, keeping empty ones: Java's `split` with
      a negative limit. */
  function Fields(s: string, sep: char): (r: seq<string>)
    ensures |r| >= 1
    ensures forall i :: 0 <= i < |r| ==> sep !in r[i]
    decreases |s|
  {
    if s == [] then [""]
    else if s[0] == sep then [""] + Fields(s[1..], sep)
    else
      var rest := Fields(s[1..], sep);
      [[s[0]] + rest[0]] + rest[1..]
  }

  /** The pieces glued back together with the separator between them. */
  function Join(parts: seq<string>, sep: char): string
    decreases |parts|
  {
    if |parts| == 0 then ""
    else if |parts| == 1 then parts[0]
    else parts[0] + [sep] + Join(parts[1..], sep)
  }

  lemma {:induction false} JoinFields(s: string, sep: char)
    ensures Join(Fields(s, sep), sep) == s
    decreases |s|
  {
    if s == [] {
    } else if s[0] == sep {
      JoinFields(s[1..], sep);
      var rest := Fields(s[1..], sep);
      assert Fields(s, sep) == [""] + rest;
      assert ([""] + rest)[1..] == rest;
      assert s == [s[0]] + s[1..];
    } else {
      JoinFields(s[1..], sep);
      var rest := Fields(s[1..], sep);
      var r := [[s[0]] + rest[0]] + rest[1..];
      assert Fields(s, sep) == r;
      if |rest| == 1 {
        assert Join(r, sep) == [s[0]] + rest[0];
      } else {
        assert r[1..] == rest[1..];
        assert Join(rest, sep) == rest[0] + [sep] + Join(rest[1..], sep);
        assert s == [s[0]] + s[1..];
      }
    }
  }

  /** A piece without the separator is a single field. */
  lemma {:induction false} FieldsOfPlain(p: string, sep: char)
    requires sep !in p
    ensures Fields(p, sep) == [p]
    decreases |p|
  {
    if p != [] {
      FieldsOfPlain(p[1..], sep);
      assert [p[0]] + p[1..] == p;
    }
  }

  /** A separator after a piece without separators closes exactly that field. */
  lemma {:induction false} FieldsAfterPlain(p: string, sep: char, t: string)
    requires sep !in p
    ensures Fields(p + [sep] + t, sep) == [p] + Fields(t, sep)
    decreases |p|
  {
    if p == [] {
      assert p + [sep] + t == [sep] + t;
      assert ([sep] + t)[1..] == t;
    } else {
      var s := p + [sep] + t;
      assert s[0] == p[0] && s[1..] == p[1..] + [sep] + t;
      FieldsAfterPlain(p[1..], sep, t);
      assert [p[0]] + p[1..] == p;
    }
  }

  /** Round trip in the other direction: separator-free pieces joined and split
      again give back the same pieces. */
  lemma {:induction false} FieldsJoin(parts: seq<string>, sep: char)
    requires |parts| >= 1
    requires forall i :: 0 <= i < |parts| ==> sep !in parts[i]
    ensures Fields(Join(parts, sep), sep) == parts
    decreases |parts|
  {
    if |parts| == 1 {
      FieldsOfPlain(parts[0], sep);
    } else {
      FieldsJoin(parts[1..], sep);
      FieldsAfterPlain(parts[0], sep, Join(parts[1..], sep));
      assert [parts[0]] + parts[1..] == parts;
    }
  }

  /** Drops empty pieces from the end, as `split` does with a zero limit. */
  function DropTrailingEmpty(parts: seq<string>): (r: seq<string>)
    ensures |r| <= |parts| && r == parts[..|r|]
    ensures forall i :: |r| <= i < |parts| ==> parts[i] == ""
    ensures r == [] || r[|r| - 1] != ""
    decreases |parts|
  {
    if |parts| > 0 && parts[|parts| - 1] == "" then DropTrailingEmpty(parts[..|parts| - 1]) else parts
  }

  /** `s.split(String.valueOf(sep))` for a separator that is not a regular
      expression metacharacter: the whole string when the separator does not
      occur, otherwise the fields with trailing empty ones removed. */
  function Split(s: string, sep: char): (r: seq<string>)
    ensures forall i :: 0 <= i < |r| ==> sep !in r[i]
    ensures sep !in s ==> r == [s]
    ensures sep in s ==> r == DropTrailingEmpty(Fields(s, sep))
  {
    if sep !in s then [s] else DropTrailingEmpty(Fields(s, sep))
  }

  function DigitChar(d: nat): (c: char)
    requires d < 10
    ensures '0' <= c <= '9'
  {
    (48 + d) as char
  }

  /** The decimal digits of `n` (Java's `"" + n` for a non-negative int). */
  function DecimalString(n: nat): (r: string)
    ensures 1 <= |r|
    ensures forall i :: 0 <= i < |r| ==> '0' <= r[i] <= '9'
    ensures r[|r| - 1] == DigitChar(n % 10)
    ensures n >= 10 <==> |r| >= 2
    decreases n
  {
    if n < 10 then [DigitChar(n)] else DecimalString(n / 10) + [DigitChar(n % 10)]
  }

  /** Distinct numbers have distinct decimal renderings. */
  lemma {:induction false} DecimalStringInjective(a: nat, b: nat)
    requires DecimalString(a) == DecimalString(b)
    ensures a == b
    decreases a
  {
    var sa, sb := DecimalString(a), DecimalString(b);
    assert DigitChar(a % 10) == DigitChar(b % 10);
    if a >= 10 {
      assert b >= 10;
      assert DecimalString(a / 10) == sa[..|sa| - 1] == sb[..|sb| - 1] == DecimalString(b / 10);
      DecimalStringInjective(a / 10, b / 10);
    } else {
      assert b < 10;
    }
  }
}
