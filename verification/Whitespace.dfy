/** Python's whitespace and line handling, as far as the corpus code relies on it. */
module Whitespace {
  import opened Common

  /** `str.isspace` for one character; also what `\s` matches. */
  predicate IsSpace(c: char) {
    var n := c as int;
    || 0x09 <= n <= 0x0D || 0x1C <= n <= 0x20 || n == 0x85 || n == 0xA0 || n == 0x1680
    || 0x2000 <= n <= 0x200A || n == 0x2028 || n == 0x2029 || n == 0x202F || n == 0x205F || n == 0x3000
  }

  /** The characters at which `str.splitlines` breaks. */
  predicate IsLineBreak(c: char) {
    var n := c as int;
    0x0A <= n <= 0x0D || 0x1C <= n <= 0x1E || n == 0x85 || n == 0x2028 || n == 0x2029
  }

  /** The position of the first character with the property, or the length. */
  function FirstAt(s: string, p: char -> bool): (i: nat)
    ensures i <= |s| && (forall k | 0 <= k < i :: !p(s[k])) && (i < |s| ==> p(s[i]))
  {
    if s == [] || p(s[0]) then 0 else 1 + FirstAt(s[1..], p)
  }

  /** The text without its whitespace: what chunking and normalising must preserve. */
  function Squash(s: string): string {
    if s == [] then [] else (if IsSpace(s[0]) then [] else [s[0]]) + Squash(s[1..])
  }

  lemma {:induction false} SquashAppend(a: string, b: string)
    ensures Squash(a + b) == Squash(a) + Squash(b)
  {
    if a == [] {
      assert a + b == b;
    } else {
      assert (a + b)[1..] == a[1..] + b;
      SquashAppend(a[1..], b);
    }
  }

  lemma SquashAround(a: string, space: char, b: string)
    requires IsSpace(space)
    ensures Squash(a + [space] + b) == Squash(a) + Squash(b)
  {
    SquashAppend(a + [space], b);
    SquashAppend(a, [space]);
  }

  function StripLeft(s: string): string {
    if s != [] && IsSpace(s[0]) then StripLeft(s[1..]) else s
  }

  function StripRight(s: string): string {
    if s != [] && IsSpace(s[|s| - 1]) then StripRight(s[..|s| - 1]) else s
  }

  function Strip(s: string): string {
    StripRight(StripLeft(s))
  }

  predicate Trimmed(s: string) {
    s == [] || (!IsSpace(s[0]) && !IsSpace(s[|s| - 1]))
  }

  lemma {:induction false} StripLeftLemma(s: string)
    ensures Squash(StripLeft(s)) == Squash(s)
    ensures |StripLeft(s)| <= |s| && s[|s| - |StripLeft(s)|..] == StripLeft(s)
    ensures StripLeft(s) == [] || !IsSpace(StripLeft(s)[0])
  {
    if s != [] && IsSpace(s[0]) {
      StripLeftLemma(s[1..]);
    }
  }

  lemma {:induction false} StripRightLemma(s: string)
    ensures Squash(StripRight(s)) == Squash(s)
    ensures StripRight(s) <= s
    ensures StripRight(s) == [] || !IsSpace(StripRight(s)[|StripRight(s)| - 1])
  {
    if s != [] && IsSpace(s[|s| - 1]) {
      var front := s[..|s| - 1];
      StripRightLemma(front);
      SquashAppend(front, [s[|s| - 1]]);
      assert s == front + [s[|s| - 1]];
    }
  }

  /** Stripping removes whitespace only, from both ends, and leaves a contiguous part. */
  lemma StripLemma(s: string) returns (from: nat)
    ensures Squash(Strip(s)) == Squash(s) && Trimmed(Strip(s))
    ensures from + |Strip(s)| <= |s| && s[from..from + |Strip(s)|] == Strip(s)
  {
    StripLeftLemma(s);
    StripRightLemma(StripLeft(s));
    from := |s| - |StripLeft(s)|;
  }

  lemma StripTrimmed(s: string)
    requires Trimmed(s)
    ensures Strip(s) == s
  {
  }

  /** `sep.join(parts)` for a one-character separator. */
  function Join(parts: seq<string>, sep: char): string {
    if parts == [] then []
    else if |parts| == 1 then parts[0]
    else parts[0] + [sep] + Join(parts[1..], sep)
  }

  lemma {:induction false} JoinSnoc(parts: seq<string>, last: string, sep: char)
    ensures Join(parts + [last], sep) == if parts == [] then last else Join(parts, sep) + [sep] + last
  {
    if |parts| == 1 {
      assert (parts + [last])[1..] == [last];
    } else if |parts| > 1 {
      assert (parts + [last])[1..] == parts[1..] + [last];
      JoinSnoc(parts[1..], last, sep);
    }
  }

  lemma {:induction false} SquashJoin(parts: seq<string>, sep: char)
    requires IsSpace(sep)
    ensures Squash(Join(parts, sep)) == Squash(Flatten(parts))
  {
    if |parts| == 1 {
      assert Flatten(parts) == parts[0] + Flatten(parts[1..]) == parts[0];
    } else if |parts| > 1 {
      SquashJoin(parts[1..], sep);
      SquashAppend(parts[0] + [sep], Join(parts[1..], sep));
      SquashAppend(parts[0], [sep]);
      SquashAppend(parts[0], Flatten(parts[1..]));
    }
  }
}
