/** Facts about strings shared by the modules below. */
module Strings {

  datatype Option<+T> = None | Some(value: T)

  /** `Starts(s, p)` is Python's `s.startswith(p)` and JavaScript's `s.startsWith(p)`. */
  predicate Starts(s: string, p: string) {
    |p| <= |s| && s[..|p|] == p
  }

  predicate Ends(s: string, p: string) {
    |p| <= |s| && s[|s| - |p|..] == p
  }

  /** White space, to Python's regular expressions and to `str.strip`. */
  predicate IsSpace(c: char) {
    || '\t' <= c <= '\r' || '\U{1C}' <= c <= ' ' || c in {'\U{85}', '\U{A0}', '\U{1680}'}
    || '\U{2000}' <= c <= '\U{200A}' || c in {'\U{2028}', '\U{2029}', '\U{202F}', '\U{205F}', '\U{3000}'}
  }

  predicate IsDigit(c: char) {
    '0' <= c <= '9'
  }

  predicate AllDigits(s: string) {
    forall i :: 0 <= i < |s| ==> IsDigit(s[i])
  }

  function Digit(n: nat): (c: char)
    requires n < 10
    ensures IsDigit(c)
  {
    '0' + n as char
  }

  /** Decimal digits of a natural number, without leading zeros. */
  function Decimal(n: nat): (s: string)
    ensures |s| >= 1 && AllDigits(s)
    ensures s[0] == '0' ==> n == 0
    ensures |s| == 1 <==> n < 10
    decreases n
  {
    if n < 10 then [Digit(n)] else Decimal(n / 10) + [Digit(n % 10)]
  }

  /** The number a run of digits denotes (leading zeros allowed). */
  function Number(s: string): nat
    requires AllDigits(s)
  {
    if s == "" then 0 else 10 * Number(s[..|s| - 1]) + (s[|s| - 1] - '0') as nat
  }

  lemma {:induction false} NumberOfDecimal(n: nat)
    ensures Number(Decimal(n)) == n
    decreases n
  {
    if n >= 10 {
      NumberOfDecimal(n / 10);
      var s := Decimal(n);
      assert s[..|s| - 1] == Decimal(n / 10);
    }
  }

  lemma {:induction false} DecimalLength(n: nat)
    ensures |Decimal(n)| >= 2 <==> n >= 10
    ensures |Decimal(n)| >= 3 <==> n >= 100
    ensures |Decimal(n)| >= 4 <==> n >= 1000
    ensures |Decimal(n)| >= 5 <==> n >= 10000
    decreases n
  {
    if n >= 10 {
      DecimalLength(n / 10);
    }
  }

  /** A digit string is determined by its length and the number it denotes. */
  lemma {:induction false} NumberInjective(s: string, t: string)
    requires AllDigits(s) && AllDigits(t) && |s| == |t| && Number(s) == Number(t)
    ensures s == t
  {
    if s != "" {
      var s', t' := s[..|s| - 1], t[..|t| - 1];
      assert s[|s| - 1] == t[|t| - 1] && Number(s') == Number(t');
      NumberInjective(s', t');
      assert s == s' + [s[|s| - 1]] && t == t' + [t[|t| - 1]];
    }
  }

  lemma {:induction false} NumberBelow(s: string)
    requires AllDigits(s)
    ensures |s| == 1 ==> Number(s) < 10
    ensures |s| == 2 ==> Number(s) < 100
    ensures |s| == 3 ==> Number(s) < 1000
    ensures |s| == 4 ==> Number(s) < 10000
    ensures |s| == 4 && s[0] != '0' ==> Number(s) >= 1000
    ensures |s| == 4 && s[0] == '0' ==> Number(s) < 1000
  {
    if |s| == 4 {
      var a := s[..3];
      var b := a[..2];
      var c := b[..1];
      assert Number(c) == (s[0] - '0') as nat;
      assert Number(b) == 10 * Number(c) + (s[1] - '0') as nat;
      assert Number(a) == 10 * Number(b) + (s[2] - '0') as nat;
    } else if |s| == 3 {
      var b := s[..2];
      var c := b[..1];
      assert Number(c) == (s[0] - '0') as nat;
      assert Number(b) == 10 * Number(c) + (s[1] - '0') as nat;
    } else if |s| == 2 {
      var c := s[..1];
      assert Number(c) == (s[0] - '0') as nat;
    }
  }

  /** `str.lstrip`, of the characters `p` is true of. */
  function StripLeft(s: string, p: char -> bool): (r: string)
    ensures exists k :: 0 <= k <= |s| && r == s[k..]
  {
    if s != "" && p(s[0]) then
      var r := StripLeft(s[1..], p);
      var k :| 0 <= k <= |s[1..]| && r == s[1..][k..];
      assert r == s[k + 1..];
      r
    else
      assert s == s[0..];
      s
  }

  function StripRight(s: string, p: char -> bool): (r: string)
    ensures r <= s
    ensures r != "" ==> !p(r[|r| - 1])
  {
    if s != "" && p(s[|s| - 1]) then StripRight(s[..|s| - 1], p) else s
  }

  /** `str.strip`. */
  function Strip(s: string, p: char -> bool): string {
    StripRight(StripLeft(s, p), p)
  }

  lemma {:induction false} StripLeftFacts(s: string, p: char -> bool)
    ensures var r := StripLeft(s, p); (r == "" || !p(r[0])) && (s == "" || !p(s[0]) ==> r == s)
  {
    if s != "" && p(s[0]) {
      StripLeftFacts(s[1..], p);
    }
  }

  lemma {:induction false} StripRightFacts(s: string, p: char -> bool)
    ensures var r := StripRight(s, p);
            (r != "" ==> r[0] == s[0]) && (s == "" || !p(s[|s| - 1]) ==> r == s) &&
                (s != "" && p(s[|s| - 1]) ==> |r| < |s|)
  {
  }

  lemma NothingStripped(s: string, p: char -> bool)
    requires s != "" && !p(s[0]) && !p(s[|s| - 1])
    ensures Strip(s, p) == s
  {
    StripLeftFacts(s, p);
    StripRightFacts(s, p);
  }

  /** `some` are the elements of `all` at the positions `at`, in their order. */
  ghost predicate Picks<T>(all: seq<T>, at: seq<nat>, some: seq<T>) {
    && |at| == |some| && (forall i, j :: 0 <= i < j < |at| ==> at[i] < at[j])
    && forall i :: 0 <= i < |at| ==> at[i] < |all| && some[i] == all[at[i]]
  }

  lemma PicksLater<T>(all: seq<T>, x: T, at: seq<nat>, some: seq<T>)
    requires Picks(all, at, some)
    ensures Picks(all + [x], at, some) && Picks(all + [x], at + [|all|], some + [x])
    ensures forall k: nat :: k in at + [|all|] <==> k in at || k == |all|
  {
    forall k: nat ensures k in at + [|all|] <==> k in at || k == |all| {
      assert (at + [|all|])[|at|] == |all|;
    }
  }

  lemma PicksAreBelow<T>(all: seq<T>, at: seq<nat>, some: seq<T>)
    requires Picks(all, at, some)
    ensures |at| == |some| && |all| !in at
  {
  }
}
