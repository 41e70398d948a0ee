/** The string helpers of src/util/string.c that the printers and the SQL generator use. */
module Strings {

  /** The values between `left` and `right`, with `delim` between neighbours. */
  function Joined(list: seq<string>, delim: string, left: string, right: string): string {
    if list == [] then ""
    else if |list| == 1 then left + list[0] + right
    else left + list[0] + right + delim + Joined(list[1..], delim, left, right)
  }

  // All values, each with the delimiter behind it.
  function Delimited(list: seq<string>, delim: string, left: string, right: string): string {
    if list == [] then ""
    else Delimited(list[..|list| - 1], delim, left, right) + (left + list[|list| - 1] + right + delim)
  }

  lemma {:induction false} DelimitedFront(list: seq<string>, delim: string, left: string, right: string)
    requires list != []
    ensures Delimited(list, delim, left, right) == (left + list[0] + right + delim) + Delimited(list[1..], delim, left, right)
  {
    if |list| > 1 {
      var front := list[..|list| - 1];
      DelimitedFront(front, delim, left, right);
      assert front[1..] == list[1..][..|list| - 2];
    }
  }

  lemma {:induction false} DelimitedIsJoined(list: seq<string>, delim: string, left: string, right: string)
    requires list != []
    ensures Delimited(list, delim, left, right) == Joined(list, delim, left, right) + delim
  {
    DelimitedFront(list, delim, left, right);
    if |list| > 1 {
      DelimitedIsJoined(list[1..], delim, left, right);
    }
  }

  lemma {:induction false} DelimitedLength(list: seq<string>, delim: string, left: string, right: string)
    ensures |Delimited(list, delim, left, right)| >= |list| * |delim|
  {
    if list != [] {
      DelimitedLength(list[..|list| - 1], delim, left, right);
      assert |list| * |delim| == (|list| - 1) * |delim| + |delim|;
    }
  }

  /** ufa_str_join_list: the delimiter behind the last value is cut off, except from a text that consists of the
      delimiter alone. The buffer always has room for the text. */
  method JoinList(list: seq<string>, delim: string, left: string, right: string) returns (r: string)
    ensures r == (if |list| == 1 && left + list[0] + right == "" then delim else Joined(list, delim, left, right))
  {
    if list == [] {
      return "";
    }
    var capacity := 20;
    var total := 0;
    var buffer := "";
    for i := 0 to |list|
      invariant buffer == Delimited(list[..i], delim, left, right)
      invariant |buffer| == total <= capacity
    {
      var n := left + list[i] + right + delim;
      total := total + |n|;
      if total > capacity {
        capacity := total;
      }
      assert list[..i + 1][..i] == list[..i];
      buffer := buffer + n;
    }
    assert list[..|list|] == list;
    DelimitedIsJoined(list, delim, left, right);
    DelimitedLength(list, delim, left, right);
    if |delim| > 0 && |buffer| - |delim| > 0 {
      buffer := buffer[..|buffer| - |delim|];
    } else if |delim| > 0 {
      assert |list| > 1 ==> |list| * |delim| >= 2 * |delim|;
      assert buffer == left + list[0] + right + delim;
    }
    return buffer;
  }

  function Repeat(s: string, times: nat): (r: string)
    ensures |r| == times * |s|
  {
    if times == 0 then "" else
      assert times * |s| == (times - 1) * |s| + |s|;
      Repeat(s, times - 1) + s
  }

  // ufa_str_multiply
  method Multiply(s: string, times: nat) returns (r: string)
    ensures r == Repeat(s, times)
  {
    r := "";
    for x := 0 to times
      invariant r == Repeat(s, x)
    {
      r := r + s;
    }
  }

  // The decimal digits printed for %d.
  function DecimalNat(n: nat): (s: string)
    ensures s != ""
    ensures forall i :: 0 <= i < |s| ==> '0' <= s[i] <= '9'
  {
    if n < 10 then [n as char + '0'] else DecimalNat(n / 10) + [(n % 10) as char + '0']
  }

  function Decimal(n: int): string {
    if n < 0 then "-" + DecimalNat(-n) else DecimalNat(n)
  }

  function Pow10(k: nat): nat {
    if k == 0 then 1 else 10 * Pow10(k - 1)
  }

  lemma {:induction false} DecimalLength(n: nat, k: nat)
    requires k >= 1 && n < Pow10(k)
    ensures |DecimalNat(n)| <= k
  {
    if n >= 10 {
      DecimalLength(n / 10, k - 1);
    }
  }

  // 32-bit integers have at most ten digits.
  lemma {:induction false} IntLength(n: int)
    requires -0x8000_0000 <= n < 0x8000_0000
    ensures |Decimal(n)| <= 11
  {
    assert Pow10(4) == 10000;
    assert Pow10(7) == 10_000_000;
    assert Pow10(10) == 10_000_000_000;
    DecimalLength(if n < 0 then -n else n, 10);
  }

  // ---------------------------------------------------------------- splitting

  /** A component: not empty and without the delimiter. */
  predicate Component(s: string, delim: char) {
    s != "" && delim !in s
  }

  // Where the first component of s ends.
  function Upto(s: string, delim: char): (n: nat)
    ensures n <= |s| && delim !in s[..n] && (n < |s| ==> s[n] == delim)
  {
    if s == "" || s[0] == delim then 0
    else
      var n := 1 + Upto(s[1..], delim);
      assert s[..n] == [s[0]] + s[1..][..n - 1];
      n
  }

  /** ufa_str_split with a delimiter of one character: the components between delimiters, as strtok finds them. */
  function Split(s: string, delim: char): (r: seq<string>)
    ensures forall c :: c in r ==> Component(c, delim)
    decreases |s|
  {
    if s == "" then []
    else if s[0] == delim then Split(s[1..], delim)
    else [s[..Upto(s, delim)]] + Split(s[Upto(s, delim)..], delim)
  }

  // The components, each behind a delimiter.
  function Absolute(components: seq<string>, delim: char): string {
    if components == [] then "" else [delim] + components[0] + Absolute(components[1..], delim)
  }

  lemma {:induction false} UptoStops(s: string, rest: string, delim: char)
    requires delim !in s && (rest != "" ==> rest[0] == delim)
    ensures Upto(s + rest, delim) == |s|
  {
    if s == "" {
      assert s + rest == rest;
    } else {
      assert (s + rest)[1..] == s[1..] + rest;
      UptoStops(s[1..], rest, delim);
    }
  }

  /** Splitting gives back the components of a text, wherever more delimiters follow. */
  lemma {:induction false} SplitAbsolute(components: seq<string>, delim: char)
    requires forall c :: c in components ==> Component(c, delim)
    ensures Split(Absolute(components, delim), delim) == components
  {
    if components != [] {
      var c, rest := components[0], Absolute(components[1..], delim);
      assert c in components;
      SplitAbsolute(components[1..], delim);
      assert ([delim] + c + rest)[1..] == c + rest;
      UptoStops(c, rest, delim);
      assert (c + rest)[..|c|] == c && (c + rest)[|c|..] == rest;
    }
  }

  // ---------------------------------------------------------------- order

  /** The order of texts by their bytes. */
  predicate AtMost(a: string, b: string) {
    a == "" || (b != "" && (a[0] < b[0] || (a[0] == b[0] && AtMost(a[1..], b[1..]))))
  }

  lemma {:induction false} AtMostTotal(a: string, b: string)
    ensures AtMost(a, b) || AtMost(b, a)
    ensures AtMost(a, b) && AtMost(b, a) ==> a == b
  {
    if a != "" && b != "" {
      AtMostTotal(a[1..], b[1..]);
      assert a == [a[0]] + a[1..] && b == [b[0]] + b[1..];
    }
  }

  lemma {:induction false} AtMostTrans(a: string, b: string, c: string)
    requires AtMost(a, b) && AtMost(b, c)
    ensures AtMost(a, c)
  {
    if a != "" && a[0] == b[0] == c[0] {
      AtMostTrans(a[1..], b[1..], c[1..]);
    }
  }

  predicate InOrder(list: seq<string>) {
    forall i, j :: 0 <= i < j < |list| ==> AtMost(list[i], list[j]) && list[i] != list[j]
  }
}
