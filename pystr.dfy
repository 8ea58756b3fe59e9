/** The Python `str` operations the core relies on: `strip`, `split`, `replace`,
    `startswith`, `in`, `lower`, `isalnum`, `int()`, `str()` of an integer, and
    `readlines()` on a byte stream. They follow Python's semantics on ASCII text;
    `lower`, `isalnum` and `int()` know only ASCII letters and digits. */
module PyStr {
  import opened Wrappers
  import opened Seqs

  type String = seq<char>

  /** Python's `str.isspace()` for one character. */
  predicate IsSpace(c: char) {
    || c == ' '
    || ('\t' <= c <= '\r')
    || ('\U{1C}' <= c <= '\U{1F}')
    || c == '\U{85}' || c == '\U{A0}' || c == '\U{1680}'
    || ('\U{2000}' <= c <= '\U{200A}')
    || c == '\U{2028}' || c == '\U{2029}' || c == '\U{202F}' || c == '\U{205F}'
    || c == '\U{3000}'
  }

  predicate IsDigit(c: char) {
    '0' <= c <= '9'
  }

  /** `str.isalnum()`, restricted to ASCII letters and digits. */
  predicate IsAlnum(c: char) {
    IsDigit(c) || ('a' <= c <= 'z') || ('A' <= c <= 'Z')
  }

  /** `str.lower()`, restricted to ASCII letters. */
  function LowerChar(c: char): char {
    if 'A' <= c <= 'Z' then (c as int + 32) as char else c
  }

  function Lower(s: String): (r: String)
    ensures |r| == |s|
    ensures forall i | 0 <= i < |s| :: r[i] == LowerChar(s[i])
  {
    seq(|s|, i requires 0 <= i < |s| => LowerChar(s[i]))
  }

  /** Lower-casing twice is lower-casing once. */
  lemma LowerIdempotent(s: String)
    ensures Lower(Lower(s)) == Lower(s)
  {
  }

  function StartsWith(s: String, prefix: String): bool {
    |prefix| <= |s| && s[..|prefix|] == prefix
  }

  function EndsWith(s: String, suffix: String): bool {
    |suffix| <= |s| && s[|s| - |suffix|..] == suffix
  }

  /** Python's `needle in haystack` for strings. */
  function Contains(haystack: String, needle: String): bool
    decreases |haystack|
  {
    StartsWith(haystack, needle) || (|haystack| > 0 && Contains(haystack[1..], needle))
  }

  /** `c * n` for a one-character string `c`; a negative `n` gives "". */
  function Repeat(c: char, n: int): (r: String)
    ensures |r| == if n <= 0 then 0 else n
    ensures forall i | 0 <= i < |r| :: r[i] == c
  {
    if n <= 0 then [] else seq(n, _ => c)
  }

  /** `s.replace(a, b)` for one-character `a` and `b`. */
  function ReplaceChar(s: String, a: char, b: char): (r: String)
    ensures |r| == |s|
    ensures a != b ==> a !in r
    ensures a !in s ==> r == s
  {
    seq(|s|, i requires 0 <= i < |s| => if s[i] == a then b else s[i])
  }

  /** Replacing `a` by `b` twice is replacing it once. */
  lemma ReplaceCharIdempotent(s: String, a: char, b: char)
    ensures ReplaceChar(ReplaceChar(s, a, b), a, b) == ReplaceChar(s, a, b)
  {
  }

  /** `s.replace(c, "")`. */
  function RemoveChar(s: String, c: char): (r: String)
    ensures c !in r
    ensures c !in s ==> r == s
  {
    FilterAllWhenAbsent(s, c);
    Filter(s, x => x != c)
  }

  /** A trailing `c` disappears with the others. */
  lemma RemoveCharTrailing(s: String, c: char)
    ensures RemoveChar(s + [c], c) == RemoveChar(s, c)
  {
    assert (s + [c])[..|s|] == s;
  }

  lemma FilterAllWhenAbsent(s: String, c: char)
    ensures c !in s ==> Filter(s, x => x != c) == s
  {
    if c !in s {
      FilterAll(s, x => x != c);
    }
  }

  /** `s.replace(sub, "")` for a non-empty `sub`: occurrences are removed left to
      right, without overlap. */
  function RemoveAll(s: String, sub: String): (r: String)
    requires |sub| > 0
    ensures !Contains(s, sub) ==> r == s
    ensures forall c | c in r :: c in s
    decreases |s|
  {
    if |s| < |sub| then s
    else if s[..|sub|] == sub then RemoveAll(s[|sub|..], sub)
    else [s[0]] + RemoveAll(s[1..], sub)
  }

  /** The first index of `c` in `s`. */
  function IndexOf(s: String, c: char): (i: nat)
    requires c in s
    ensures i < |s| && s[i] == c && c !in s[..i]
  {
    if s[0] == c then 0
    else
      assert s[1..][..IndexOf(s[1..], c)] == s[1..1 + IndexOf(s[1..], c)];
      1 + IndexOf(s[1..], c)
  }

  /** The last index of `c` in `s` (`str.rfind`). */
  function LastIndexOf(s: String, c: char): (i: nat)
    requires c in s
    ensures i < |s| && s[i] == c && c !in s[i + 1..]
  {
    if s[|s| - 1] == c then |s| - 1
    else
      assert c in s[..|s| - 1] by {
        var k :| 0 <= k < |s| && s[k] == c;
        assert s[..|s| - 1][k] == c;
      }
      var i := LastIndexOf(s[..|s| - 1], c);
      assert s[i + 1..] == s[..|s| - 1][i + 1..] + [s[|s| - 1]];
      i
  }

  /** `s.split(c)`: the fields between the occurrences of `c`; at least one field. */
  function Split(s: String, c: char): (r: seq<String>)
    ensures |r| >= 1
    ensures forall i | 0 <= i < |r| :: c !in r[i]
    ensures Join(r, c) == s
    decreases |s|
  {
    if c in s then
      var i := IndexOf(s, c);
      var rest := Split(s[i + 1..], c);
      assert s == s[..i] + [c] + s[i + 1..];
      [s[..i]] + rest
    else [s]
  }

  /** `c.join(parts)`. */
  function Join(parts: seq<String>, c: char): String
    decreases |parts|
  {
    if |parts| == 0 then []
    else if |parts| == 1 then parts[0]
    else parts[0] + [c] + Join(parts[1..], c)
  }

  /** In `a + [c] + b` with no `c` in `a`, the first `c` is the one after `a`. */
  lemma IndexOfAfter(a: String, c: char, b: String)
    requires c !in a
    ensures c in a + [c] + b
    ensures IndexOf(a + [c] + b, c) == |a|
  {
    var s := a + [c] + b;
    assert s[|a|] == c;
    assert s[..|a|] == a;
  }

  /** Splitting at a first `c` that follows `a` yields `a`, then the fields of the rest. */
  lemma SplitAfter(a: String, c: char, b: String)
    requires c !in a
    ensures Split(a + [c] + b, c) == [a] + Split(b, c)
  {
    var s := a + [c] + b;
    IndexOfAfter(a, c, b);
    assert s[..|a|] == a;
    assert s[|a| + 1..] == b;
  }

  /** Splitting undoes joining when no part contains the separator. */
  lemma {:induction false} SplitJoin(parts: seq<String>, c: char)
    requires |parts| >= 1
    requires forall i | 0 <= i < |parts| :: c !in parts[i]
    ensures Split(Join(parts, c), c) == parts
    decreases |parts|
  {
    if |parts| > 1 {
      var rest := Join(parts[1..], c);
      assert Join(parts, c) == parts[0] + [c] + rest;
      SplitAfter(parts[0], c, rest);
      SplitJoin(parts[1..], c);
      assert parts == [parts[0]] + parts[1..];
    }
  }

  /** With `c` present, the first field is the text before the first `c` and the
      second field the text after it up to the next `c` (or the end). */
  lemma SplitFirstFields(s: String, c: char)
    requires c in s
    ensures |Split(s, c)| >= 2
    ensures Split(s, c)[0] == s[..IndexOf(s, c)]
    ensures Split(s, c)[1] == Split(s[IndexOf(s, c) + 1..], c)[0]
  {
  }

  function TrimLeft(s: String): (r: String)
    ensures |r| <= |s| && r == s[|s| - |r|..]
    ensures r == [] || !IsSpace(r[0])
    ensures forall i | 0 <= i < |s| - |r| :: IsSpace(s[i])
    decreases |s|
  {
    if |s| > 0 && IsSpace(s[0]) then TrimLeft(s[1..]) else s
  }

  function TrimRight(s: String): (r: String)
    ensures |r| <= |s| && r == s[..|r|]
    ensures r == [] || !IsSpace(r[|r| - 1])
    ensures forall i | |r| <= i < |s| :: IsSpace(s[i])
    decreases |s|
  {
    if |s| > 0 && IsSpace(s[|s| - 1]) then TrimRight(s[..|s| - 1]) else s
  }

  /** `s.strip()`: leading and trailing whitespace removed. */
  function Strip(s: String): String {
    TrimRight(TrimLeft(s))
  }

  /** A string that neither starts nor ends with whitespace is its own strip, also
      with one trailing newline. */
  lemma StripOfTrimmed(s: String)
    requires s == [] || (!IsSpace(s[0]) && !IsSpace(s[|s| - 1]))
    ensures Strip(s) == s
    ensures Strip(s + ['\n']) == s
  {
    assert TrimLeft(s) == s;
    var t := s + ['\n'];
    if s == [] {
      assert TrimLeft(t) == [];
    } else {
      assert TrimLeft(t) == t by {
        assert t[0] == s[0];
      }
      assert TrimRight(t) == TrimRight(s) by {
        assert t[..|t| - 1] == s;
      }
    }
  }

  /** `readlines()`: the lines of `t`, each with its terminating "\n" except
      possibly the last. */
  function ReadLines(t: String): seq<String>
    decreases |t|
  {
    if t == [] then []
    else if '\n' in t then
      var i := IndexOf(t, '\n');
      [t[..i + 1]] + ReadLines(t[i + 1..])
    else [t]
  }

  lemma ReadLinesCons(line: String, rest: String)
    requires '\n' !in line
    ensures ReadLines(line + ['\n'] + rest) == [line + ['\n']] + ReadLines(rest)
  {
    var t := line + ['\n'] + rest;
    assert t[|line|] == '\n';
    var i := IndexOf(t, '\n');
    assert t[..|line|] == line;
    assert i == |line|;
    assert t[..i + 1] == line + ['\n'];
    assert t[i + 1..] == rest;
  }

  /** The lines `ls` written one after the other. */
  function Concat(ls: seq<String>): String
    decreases |ls|
  {
    if ls == [] then [] else ls[0] + Concat(ls[1..])
  }

  /** A line as `readlines()` returns it when more text follows: one "\n", at its end. */
  ghost predicate IsLine(l: String) {
    |l| > 0 && l[|l| - 1] == '\n' && '\n' !in l[..|l| - 1]
  }

  /** A whole line in front of more text is read as that line first. */
  lemma ReadLinesLine(l: String, rest: String)
    requires IsLine(l)
    ensures ReadLines(l + rest) == [l] + ReadLines(rest)
  {
    var body := l[..|l| - 1];
    assert l == body + ['\n'];
    ReadLinesCons(body, rest);
  }

  /** Reading back lines written one after the other gives those lines. */
  lemma {:induction false} ReadConcat(ls: seq<String>, tail: String)
    requires forall i | 0 <= i < |ls| :: IsLine(ls[i])
    ensures ReadLines(Concat(ls) + tail) == ls + ReadLines(tail)
    decreases |ls|
  {
    if ls == [] {
      assert Concat(ls) + tail == tail;
    } else {
      var l, more := ls[0], ls[1..];
      var rest := Concat(more);
      assert Concat(ls) == l + rest;
      assert forall i | 0 <= i < |more| :: IsLine(more[i]) by {
        forall i | 0 <= i < |more| ensures IsLine(more[i]) {
          assert more[i] == ls[i + 1];
        }
      }
      ReadConcat(more, tail);
      Associative(l, rest, tail);
      assert IsLine(l);
      ReadLinesLine(l, rest + tail);
      Associative([l], more, ReadLines(tail));
      assert ls == [l] + more;
    }
  }

  function DigitChar(d: nat): char
    requires d < 10
  {
    (48 + d) as char
  }

  /** `str(n)` for a natural number. */
  function NatToString(n: nat): (s: String)
    ensures |s| >= 1
    ensures forall i | 0 <= i < |s| :: IsDigit(s[i])
  {
    if n < 10 then [DigitChar(n)] else NatToString(n / 10) + [DigitChar(n % 10)]
  }

  /** `str(n)` for an integer. */
  function IntToString(n: int): (s: String)
    ensures |s| >= 1
    ensures forall i | 0 <= i < |s| :: IsDigit(s[i]) || (i == 0 && s[i] == '-')
  {
    if n < 0 then "-" + NatToString(-n) else NatToString(n)
  }

  /** The digits accepted by `int()` in base 10: digits with single underscores
      between them. */
  predicate WellFormedDigits(u: String) {
    && |u| > 0 && IsDigit(u[0]) && IsDigit(u[|u| - 1])
    && (forall i | 0 <= i < |u| :: IsDigit(u[i]) || u[i] == '_')
    && (forall i | 0 <= i < |u| - 1 :: !(u[i] == '_' && u[i + 1] == '_'))
  }

  /** The value of a digit string, underscores being ignored. */
  function DigitsValue(u: String): nat
    decreases |u|
  {
    if u == [] then 0
    else if IsDigit(u[|u| - 1]) then DigitsValue(u[..|u| - 1]) * 10 + (u[|u| - 1] as int - 48)
    else DigitsValue(u[..|u| - 1])
  }

  function ParseDigits(u: String): Option<nat> {
    if WellFormedDigits(u) then Some(DigitsValue(u)) else None
  }

  /** `int(s)`: surrounding whitespace, then an optional sign, then digits;
      anything else is a ValueError, given here as None. */
  function ParseInt(s: String): Option<int> {
    var t := Strip(s);
    if |t| > 0 && (t[0] == '+' || t[0] == '-') then
      match ParseDigits(t[1..])
      case None => None
      case Some(v) =>
        var k: int := if t[0] == '-' then -(v as int) else v as int;
        Some(k)
    else
      match ParseDigits(t)
      case None => None
      case Some(v) => Some(v)
  }

  lemma {:induction false} NatToStringValue(n: nat)
    ensures DigitsValue(NatToString(n)) == n
  {
    if n >= 10 {
      var s := NatToString(n);
      assert s[..|s| - 1] == NatToString(n / 10);
      NatToStringValue(n / 10);
    }
  }

  lemma NatToStringParses(n: nat)
    ensures ParseDigits(NatToString(n)) == Some(n)
  {
    var s := NatToString(n);
    assert WellFormedDigits(s);
    NatToStringValue(n);
  }

  lemma ParseNegative(s: String)
    requires Strip(s) == s && |s| > 0 && s[0] == '-' && ParseDigits(s[1..]).Some?
    ensures ParseInt(s) == Some(-(ParseDigits(s[1..]).value as int))
  {
  }

  /** A signed number has no surrounding whitespace. */
  lemma StripSigned(u: String)
    requires |u| > 0 && IsDigit(u[|u| - 1])
    ensures Strip(['-'] + u) == ['-'] + u
  {
    var s := ['-'] + u;
    assert !IsSpace(s[0]);
    assert !IsSpace(s[|s| - 1]) by {
      assert s[|s| - 1] == u[|u| - 1];
    }
    StripOfTrimmed(s);
  }

  /** A minus sign before well-formed digits parses to the negated value. */
  lemma SignedParses(u: String, v: nat)
    requires |u| > 0 && IsDigit(u[|u| - 1]) && ParseDigits(u) == Some(v)
    ensures ParseInt(['-'] + u) == Some(-(v as int))
  {
    StripSigned(u);
    var s := ['-'] + u;
    assert s[1..] == u;
    ParseNegative(s);
  }

  lemma NegativeParses(n: int)
    requires n < 0
    ensures ParseInt(IntToString(n)) == Some(n)
  {
    var u := NatToString(-n);
    assert IntToString(n) == ['-'] + u;
    NatToStringParses(-n);
    SignedParses(u, -n);
  }

  /** `int(str(n)) == n`. */
  lemma IntToStringParses(n: int)
    ensures ParseInt(IntToString(n)) == Some(n)
  {
    if n < 0 {
      NegativeParses(n);
    } else {
      var s := IntToString(n);
      assert IsDigit(s[|s| - 1]) && IsDigit(s[0]);
      StripOfTrimmed(s);
      NatToStringParses(n);
    }
  }
}
