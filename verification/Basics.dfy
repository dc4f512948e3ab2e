/** Option values, faults, and the few Go string functions shared by the models. */
module Basics {

  datatype Option<+T> = None | Some(value: T)

  function Max(a: int, b: int): int { if a >= b then a else b }

  function Min(a: int, b: int): int { if a <= b then a else b }

  predicate IsSpace(c: char) {
    c == ' ' || c == '\t' || c == '\n' || c == '\r' || c == 11 as char || c == 12 as char
  }

  function TrimLeft(s: string): (r: string)
    ensures r == "" || !IsSpace(r[0])
  {
    if s != "" && IsSpace(s[0]) then TrimLeft(s[1..]) else s
  }

  function TrimRight(s: string): (r: string)
    ensures r == "" || !IsSpace(r[|r| - 1])
    ensures r <= s
  {
    if s != "" && IsSpace(s[|s| - 1]) then TrimRight(s[..|s| - 1]) else s
  }

  /** strings.TrimSpace, on the ASCII white space. */
  function Trim(s: string): (r: string)
    ensures r == "" || (!IsSpace(r[0]) && !IsSpace(r[|r| - 1]))
  {
    TrimRight(TrimLeft(s))
  }

  /** Nothing but the ASCII white space of Go. */
  predicate IsBlankText(s: string) { forall k :: 0 <= k < |s| ==> s[k] in " \t\n\r" || s[k] in [11 as char, 12 as char] }

  lemma {:induction false} TrimLeftMeans(s: string) returns (front: string)
    ensures s == front + TrimLeft(s) && IsBlankText(front)
  {
    if s != "" && IsSpace(s[0]) {
      front := TrimLeftMeans(s[1..]);
      front := [s[0]] + front;
      assert s == [s[0]] + s[1..];
    } else {
      front := "";
    }
  }

  lemma {:induction false} TrimRightMeans(s: string) returns (back: string)
    ensures s == TrimRight(s) + back && IsBlankText(back)
  {
    if s != "" && IsSpace(s[|s| - 1]) {
      back := TrimRightMeans(s[..|s| - 1]);
      back := back + [s[|s| - 1]];
      assert s == s[..|s| - 1] + [s[|s| - 1]];
    } else {
      back := "";
    }
  }

  /** Only white space is taken away, from both ends, and all of it. */
  lemma TrimMeans(s: string) returns (front: string, back: string)
    ensures s == front + Trim(s) + back && IsBlankText(front) && IsBlankText(back)
    ensures Trim(s) != "" ==> !IsBlankText(Trim(s)[..1]) && !IsBlankText(Trim(s)[|Trim(s)| - 1..])
  {
    front := TrimLeftMeans(s);
    back := TrimRightMeans(TrimLeft(s));
    var t := Trim(s);
    if t != "" {
      assert t[..1][0] == t[0] && t[|t| - 1..][0] == t[|t| - 1];
    }
  }

  lemma TrimFixed(s: string)
    requires s == "" || (!IsSpace(s[0]) && !IsSpace(s[|s| - 1]))
    ensures Trim(s) == s
  {
  }

  lemma TrimIdempotent(s: string)
    ensures Trim(Trim(s)) == Trim(s)
  {
    var t := Trim(s);
    TrimFixed(t);
  }

  /** fmt.Sprintf("%d", n). */
  function Decimal(n: nat): (s: string)
    ensures s != ""
  {
    var digit := '0' + (n % 10) as char;
    if n < 10 then [digit] else Decimal(n / 10) + [digit]
  }

  lemma {:induction false} DecimalIsInjective(m: nat, n: nat)
    requires Decimal(m) == Decimal(n)
    ensures m == n
  {
    var s := Decimal(m);
    assert s[|s| - 1] == '0' + (m % 10) as char == '0' + (n % 10) as char;
    assert m >= 10 <==> |s| > 1;
    assert n >= 10 <==> |s| > 1;
    if |s| > 1 {
      assert s[..|s| - 1] == Decimal(m / 10);
      assert s[..|s| - 1] == Decimal(n / 10);
      DecimalIsInjective(m / 10, n / 10);
    }
  }

  lemma SubsetIsSmaller<T>(a: set<T>, b: set<T>)
    requires a <= b
    ensures |a| <= |b|
  {
    assert b == a + (b - a);
  }

  lemma SliceOfSlice<T>(s: seq<T>, lo: nat, hi: nat, i: nat, j: nat)
    requires lo <= hi <= |s| && i <= j <= hi - lo
    ensures s[lo..hi][i..j] == s[lo + i..lo + j]
  {
    forall k | 0 <= k < j - i ensures s[lo..hi][i..j][k] == s[lo + i..lo + j][k] {}
  }

  lemma RestAt<T>(s: seq<T>, k: nat)
    requires 0 < k < |s|
    ensures s[1..][k - 1] == s[k]
  {
  }

  lemma JoinSlices<T>(s: seq<T>, i: nat, j: nat, k: nat)
    requires i <= j <= k <= |s|
    ensures s[i..j] + s[j..k] == s[i..k]
  {
  }

  /** The first durable effect that fails, counted from 0, and whether it took hold before the failure. */
  datatype Fault = Never | At(step: nat, landed: bool)

  /** The fault as seen after one effect has landed. */
  function Later(fault: Fault): Fault {
    if fault.At? && fault.step > 0 then At(fault.step - 1, fault.landed) else fault
  }
}
