/** String helpers shared by the models: ASCII digits, substring search with
    the meaning of Python's `str.find` and `str.rfind`, decimal rendering and
    parsing, ASCII upper-casing, Python's whitespace test, strip and split. */
module Text {

  datatype Option<T> = None | Some(value: T)

  datatype Result<T, E> = Ok(value: T) | Err(error: E)

  predicate IsDigit(c: char) { '0' <= c <= '9' }

  predicate AllDigits(s: string) { forall i :: 0 <= i < |s| ==> IsDigit(s[i]) }

  /** The regular expression `\d+` matched against the whole string. */
  predicate IsNumeral(s: string) { |s| > 0 && AllDigits(s) }

  predicate StartsWith(s: string, p: string) { |p| <= |s| && s[..|p|] == p }

  predicate EndsWith(s: string, p: string) { |p| <= |s| && s[|s| - |p|..] == p }

  predicate OccursAt(s: string, p: string, i: int)
  {
    0 <= i && i + |p| <= |s| && s[i..i + |p|] == p
  }

  /** Python's `p in s`. */
  predicate Contains(s: string, p: string) { exists i :: 0 <= i <= |s| && OccursAt(s, p, i) }

  /** Dropping the last element of `a + b` drops it from `b`. */
  lemma InitOfAppend<T>(a: seq<T>, b: seq<T>)
    requires b != []
    ensures (a + b)[..|a + b| - 1] == a + b[..|b| - 1]
    ensures (a + b)[|a + b| - 1] == b[|b| - 1]
  {
  }

  lemma InitLast<T>(s: seq<T>)
    requires s != []
    ensures s == s[..|s| - 1] + [s[|s| - 1]]
  {
  }

  lemma AppendAssoc<T>(a: seq<T>, b: seq<T>, c: seq<T>)
    ensures (a + b) + c == a + (b + c)
  {
  }

  /** `p + s` starts with `p`, and what follows `p` is `s`. */
  lemma TakeDrop<T>(s: seq<T>, n: nat)
    requires n <= |s|
    ensures s == s[..n] + s[n..]
  {
  }

  lemma DropPrefix(s: string, p: string)
    requires StartsWith(s, p)
    ensures s == p + s[|p|..]
  {
    TakeDrop(s, |p|);
  }

  lemma DropSuffix(s: string, p: string)
    requires EndsWith(s, p)
    ensures s == s[..|s| - |p|] + p
  {
    TakeDrop(s, |s| - |p|);
  }

  lemma PrefixThenRest(p: string, s: string)
    ensures StartsWith(p + s, p) && (p + s)[|p|..] == s
  {
    assert (p + s)[..|p|] == p;
  }

  // ---------------------------------------------------------------- search

  /** Python's `s.find(p)`: the first index at which `p` occurs, or -1. */
  function Find(s: string, p: string): (r: int)
    ensures -1 <= r <= |s|
    ensures r == -1 <==> !Contains(s, p)
    ensures r >= 0 ==> OccursAt(s, p, r) && forall i :: 0 <= i < r ==> !OccursAt(s, p, i)
  {
    FindFrom(s, p, 0)
  }

  /** `find` only looks as far as the first occurrence: strings that agree
      up to its end find `p` at the same place. */
  lemma FindSamePrefix(s: string, t: string, p: string, n: nat)
    requires n <= |s| && n <= |t| && s[..n] == t[..n]
    requires Find(s, p) >= 0 && Find(s, p) + |p| <= n
    ensures Find(t, p) == Find(s, p)
  {
    var k := Find(s, p);
    forall i | 0 <= i <= k ensures OccursAt(t, p, i) == OccursAt(s, p, i) {
      assert t[i..i + |p|] == t[..n][i..i + |p|];
      assert s[i..i + |p|] == s[..n][i..i + |p|];
    }
    assert Contains(t, p) by {
      assert OccursAt(t, p, k);
    }
  }

  /** Two strings agree up to `n` when they agree up to `a` and from `a` to `n`. */
  lemma PrefixesAgree(s: string, t: string, a: nat, n: nat)
    requires a <= n <= |s| && n <= |t|
    requires s[..a] == t[..a] && s[a..n] == t[a..n]
    ensures s[..n] == t[..n]
  {
    assert s[..n] == s[..a] + s[a..n];
    assert t[..n] == t[..a] + t[a..n];
  }

  function FindFrom(s: string, p: string, from: nat): (r: int)
    ensures r == -1 || (from <= r && OccursAt(s, p, r))
    ensures r == -1 ==> forall i :: from <= i ==> !OccursAt(s, p, i)
    ensures r >= 0 ==> forall i :: from <= i < r ==> !OccursAt(s, p, i)
    decreases |s| - from
  {
    if from + |p| > |s| then -1
    else if OccursAt(s, p, from) then from
    else FindFrom(s, p, from + 1)
  }

  /** Python's `s.rfind(p, lo, hi)` for `hi <= |s|`: the last index `i` with
      `lo <= i` and `i + |p| <= hi` at which `p` occurs, or -1. */
  function RFindIn(s: string, p: string, lo: nat, hi: nat): (r: int)
    requires hi <= |s|
    ensures r == -1 || (lo <= r && r + |p| <= hi && OccursAt(s, p, r))
    ensures r == -1 ==> forall i :: lo <= i && i + |p| <= hi ==> !OccursAt(s, p, i)
    ensures r >= 0 ==> forall i :: r < i && i + |p| <= hi ==> !OccursAt(s, p, i)
  {
    RFindDown(s, p, lo, hi - |p|)
  }

  function RFindDown(s: string, p: string, lo: nat, top: int): (r: int)
    requires top + |p| <= |s|
    ensures r == -1 || (lo <= r <= top && OccursAt(s, p, r))
    ensures r == -1 ==> forall i :: lo <= i <= top ==> !OccursAt(s, p, i)
    ensures r >= 0 ==> forall i :: r < i <= top ==> !OccursAt(s, p, i)
    decreases top - lo
  {
    if top < lo then -1
    else if OccursAt(s, p, top) then top
    else RFindDown(s, p, lo, top - 1)
  }

  /** The longest prefix of `s` made of digits (a greedy `\d*`). */
  function LeadingDigits(s: string): (d: string)
    ensures |d| <= |s| && AllDigits(d) && d == s[..|d|]
    ensures |d| == |s| || !IsDigit(s[|d|])
  {
    if s != [] && IsDigit(s[0]) then
      var d := [s[0]] + LeadingDigits(s[1..]);
      assert s == [s[0]] + s[1..];
      d
    else []
  }

  /** The longest suffix of `s` made of digits. */
  function TrailingDigits(s: string): (d: string)
    ensures |d| <= |s| && AllDigits(d) && d == s[|s| - |d|..]
    ensures |d| == |s| || !IsDigit(s[|s| - |d| - 1])
  {
    if s != [] && IsDigit(s[|s| - 1]) then
      var d := TrailingDigits(s[..|s| - 1]) + [s[|s| - 1]];
      assert s == s[..|s| - 1] + [s[|s| - 1]];
      d
    else []
  }

  lemma {:induction false} LeadingDigitsOf(d: string, t: string)
    requires AllDigits(d) && (t == [] || !IsDigit(t[0]))
    ensures LeadingDigits(d + t) == d
  {
    if d != [] {
      assert (d + t)[1..] == d[1..] + t;
      LeadingDigitsOf(d[1..], t);
    }
  }

  lemma {:induction false} TrailingDigitsOf(t: string, d: string)
    requires AllDigits(d) && (t == [] || !IsDigit(t[|t| - 1]))
    ensures TrailingDigits(t + d) == d
  {
    if d != [] {
      assert (t + d)[..|t + d| - 1] == t + d[..|d| - 1];
      TrailingDigitsOf(t, d[..|d| - 1]);
    }
  }

  // --------------------------------------------------------------- numbers

  function DigitChar(d: nat): (c: char)
    requires d < 10
    ensures IsDigit(c)
  {
    (d + '0' as int) as char
  }

  function DigitValue(c: char): (d: nat)
    requires IsDigit(c)
    ensures d < 10 && DigitChar(d) == c
  {
    c as int - '0' as int
  }

  /** Python's `str(n)` for a non-negative integer. */
  function NatToString(n: nat): (s: string)
    ensures IsNumeral(s)
    ensures s[0] == '0' ==> n == 0 && |s| == 1
    ensures |s| == 1 <==> n < 10
    ensures |s| <= 2 <==> n < 100
  {
    if n < 10 then [DigitChar(n)] else NatToString(n / 10) + [DigitChar(n % 10)]
  }

  /** Python's `int(s)` for a string of ASCII digits (leading zeros allowed). */
  function ParseDigits(s: string): nat
    requires AllDigits(s)
  {
    if s == [] then 0 else ParseDigits(s[..|s| - 1]) * 10 + DigitValue(s[|s| - 1])
  }

  lemma {:induction false} ParseNatToString(n: nat)
    ensures ParseDigits(NatToString(n)) == n
  {
    if n >= 10 {
      var s := NatToString(n);
      assert s[..|s| - 1] == NatToString(n / 10);
      ParseNatToString(n / 10);
    }
  }

  lemma {:induction false} ParseLeadingZero(s: string)
    requires AllDigits(s)
    ensures ParseDigits("0" + s) == ParseDigits(s)
  {
    if s != [] {
      assert ("0" + s)[..|s|] == "0" + s[..|s| - 1];
      ParseLeadingZero(s[..|s| - 1]);
    }
  }

  /** Python's `f"{n:02d}"`: the decimal form of `n`, left-padded with `0`
      to at least two characters. */
  function ZeroPad2(n: nat): (s: string)
  {
    if n < 10 then "0" + NatToString(n) else NatToString(n)
  }

  lemma ZeroPad2Digits(n: nat)
    ensures IsNumeral(ZeroPad2(n)) && ParseDigits(ZeroPad2(n)) == n
    ensures |ZeroPad2(n)| >= 2
    ensures |ZeroPad2(n)| == 2 <==> n < 100
  {
    ParseNatToString(n);
    if n < 10 {
      ParseLeadingZero(NatToString(n));
    }
  }

  // --------------------------------------------------------------- letters

  function UpperChar(c: char): char
  {
    if 'a' <= c <= 'z' then (c as int - 32) as char else c
  }

  /** Python's `s.upper()` restricted to ASCII letters. */
  function Upper(s: string): (r: string)
    ensures |r| == |s| && forall i :: 0 <= i < |s| ==> r[i] == UpperChar(s[i])
  {
    seq(|s|, i requires 0 <= i < |s| => UpperChar(s[i]))
  }

  /** Python's `c.isspace()`. */
  predicate IsSpace(c: char)
  {
    c == ' ' || '\t' <= c <= '\r' || '\U{1c}' <= c <= '\U{1f}' || c == '\U{85}' || c == '\U{a0}'
    || c == '\U{1680}' || '\U{2000}' <= c <= '\U{200a}' || c == '\U{2028}' || c == '\U{2029}'
    || c == '\U{202f}' || c == '\U{205f}' || c == '\U{3000}'
  }

  // ----------------------------------------------------------- strip, split

  /** Python's `s.lstrip(chars)`: the suffix left after the leading run of
      dropped characters. */
  function TrimStart(s: string, drop: char -> bool): (r: string)
    ensures |r| <= |s| && r == s[|s| - |r|..]
    ensures r == [] || !drop(r[0])
  {
    if s != [] && drop(s[0]) then TrimStart(s[1..], drop) else s
  }

  /** Python's `s.rstrip(chars)`: the prefix left before the trailing run of
      dropped characters. */
  function TrimEnd(s: string, drop: char -> bool): (r: string)
    ensures |r| <= |s| && r == s[..|r|]
    ensures r == [] || !drop(r[|r| - 1])
  {
    if s != [] && drop(s[|s| - 1]) then TrimEnd(s[..|s| - 1], drop) else s
  }

  /** A dropped first character goes, and the trim stops at a kept one. */
  lemma TrimStartStep(c: char, s: string, drop: char -> bool)
    requires drop(c) && (s == [] || !drop(s[0]))
    ensures TrimStart([c] + s, drop) == s
  {
    assert ([c] + s)[1..] == s;
  }

  /** Only dropped characters are removed from the back. */
  lemma {:induction false} TrimEndDropped(s: string, drop: char -> bool)
    ensures forall i :: |TrimEnd(s, drop)| <= i < |s| ==> drop(s[i])
  {
    if s != [] && drop(s[|s| - 1]) {
      TrimEndDropped(s[..|s| - 1], drop);
    }
  }

  /** Text that neither starts nor ends with a dropped character is left as
      it is by `strip`. */
  lemma StripUnchanged(s: string, drop: char -> bool)
    requires s != [] && !drop(s[0]) && !drop(s[|s| - 1])
    ensures Strip(s, drop) == s
  {
  }

  /** Python's `s.strip(chars)`, the characters to remove given as `drop`. */
  function Strip(s: string, drop: char -> bool): (r: string)
  {
    TrimEnd(TrimStart(s, drop), drop)
  }

  /** Python's `s.split(sep)` for a one-character separator. */
  function Split(s: string, sep: char): (r: seq<string>)
    ensures |r| >= 1
    ensures forall k :: 0 <= k < |r| ==> sep !in r[k]
  {
    if s == [] then [""]
    else
      var rest := Split(s[1..], sep);
      if s[0] == sep then [""] + rest else [[s[0]] + rest[0]] + rest[1..]
  }

  /** Python's `sep.join(parts)`. */
  function Join(parts: seq<string>, sep: char): string
  {
    if parts == [] then ""
    else if |parts| == 1 then parts[0]
    else parts[0] + [sep] + Join(parts[1..], sep)
  }

  lemma JoinCons(x: string, rest: seq<string>, sep: char)
    requires rest != []
    ensures Join([x] + rest, sep) == x + [sep] + Join(rest, sep)
  {
    assert ([x] + rest)[1..] == rest;
  }

  lemma {:induction false} JoinSplit(s: string, sep: char)
    ensures Join(Split(s, sep), sep) == s
  {
    if s != [] {
      var rest := Split(s[1..], sep);
      JoinSplit(s[1..], sep);
      if s[0] != sep {
        var r := Split(s, sep);
        if |rest| == 1 {
          assert r == [[s[0]] + rest[0]];
        } else {
          assert r[1..] == rest[1..];
          assert Join(r, sep) == [s[0]] + rest[0] + [sep] + Join(rest[1..], sep);
        }
      }
    }
  }

  /** Splitting text that starts with a separator-free run `a` puts `a` in
      front of the first piece of the rest. */
  lemma {:induction false} SplitPrefix(a: string, t: string, sep: char)
    requires sep !in a
    ensures Split(a + t, sep) == [a + Split(t, sep)[0]] + Split(t, sep)[1..]
  {
    if a != [] {
      var u := a[1..] + t;
      assert (a + t)[1..] == u;
      assert (a + t)[0] == a[0] != sep;
      SplitPrefix(a[1..], t, sep);
      assert Split(a + t, sep) == [[a[0]] + Split(u, sep)[0]] + Split(u, sep)[1..];
      assert [a[0]] + (a[1..] + Split(t, sep)[0]) == a + Split(t, sep)[0];
    } else {
      assert a + t == t;
      assert a + Split(t, sep)[0] == Split(t, sep)[0];
      assert Split(t, sep) == [Split(t, sep)[0]] + Split(t, sep)[1..];
    }
  }

  /** Text without the separator splits into itself. */
  lemma SplitWhole(s: string, sep: char)
    requires sep !in s
    ensures Split(s, sep) == [s]
  {
    SplitPrefix(s, "", sep);
    assert s + "" == s;
  }

  /** Joining separator-free pieces and splitting again gives the pieces. */
  lemma {:induction false} SplitJoin(parts: seq<string>, sep: char)
    requires |parts| >= 1 && forall k :: 0 <= k < |parts| ==> sep !in parts[k]
    ensures Split(Join(parts, sep), sep) == parts
  {
    if |parts| == 1 {
      SplitPrefix(parts[0], "", sep);
      assert Split("", sep) == [""];
      assert parts[0] + "" == parts[0];
    } else {
      var rest := Join(parts[1..], sep);
      SplitJoin(parts[1..], sep);
      assert Join(parts, sep) == parts[0] + ([sep] + rest);
      SplitPrefix(parts[0], [sep] + rest, sep);
      assert ([sep] + rest)[1..] == rest;
      assert Split([sep] + rest, sep) == [""] + parts[1..];
      assert Split([sep] + rest, sep)[0] == "";
      assert Split([sep] + rest, sep)[1..] == parts[1..];
      assert parts[0] + "" == parts[0];
      assert parts == [parts[0]] + parts[1..];
    }
  }

  /** A join ends with its last piece. */
  lemma {:induction false} JoinEndsWithLast(parts: seq<string>, sep: char)
    requires |parts| >= 1
    ensures EndsWith(Join(parts, sep), parts[|parts| - 1])
  {
    if |parts| > 1 {
      JoinEndsWithLast(parts[1..], sep);
    }
  }
}
