/** Component ids, endpoint names and the order in which Python sorts them. */
module Ids {

  type Id = string

  // ---------------------------------------------------------------- ordering

  /** Lexicographic order by code point: the order of `sorted` on strings. */
  predicate Le(a: Id, b: Id) {
    a == [] || (b != [] && (a[0] < b[0] || (a[0] == b[0] && Le(a[1..], b[1..]))))
  }

  predicate Lt(a: Id, b: Id) {
    a != b && Le(a, b)
  }

  lemma {:induction false} LeRefl(a: Id)
    ensures Le(a, a)
  {
    if a == [] {
    } else {
      LeRefl(a[1..]);
    }
  }

  lemma {:induction false} LeTotal(a: Id, b: Id)
    ensures Le(a, b) || Le(b, a)
  {
    if a == [] || b == [] {
    } else {
      LeTotal(a[1..], b[1..]);
    }
  }

  lemma {:induction false} LeAntisymmetric(a: Id, b: Id)
    requires Le(a, b) && Le(b, a)
    ensures a == b
  {
    if a == [] {
    } else {
      LeAntisymmetric(a[1..], b[1..]);
      assert a == [a[0]] + a[1..] && b == [b[0]] + b[1..];
    }
  }

  lemma {:induction false} LeTransitive(a: Id, b: Id, c: Id)
    requires Le(a, b) && Le(b, c)
    ensures Le(a, c)
  {
    if a == [] || !(a[0] == b[0] == c[0]) {
    } else {
      LeTransitive(a[1..], b[1..], c[1..]);
    }
  }

  predicate Ascending(s: seq<Id>) {
    forall i, j :: 0 <= i < j < |s| ==> Lt(s[i], s[j])
  }

  ghost predicate IsLeast(m: Id, s: set<Id>) {
    m in s && forall x :: x in s ==> Le(m, x)
  }

  lemma {:induction false} LeastExists(s: set<Id>)
    requires s != {}
    ensures exists m :: IsLeast(m, s)
    decreases |s|
  {
    var m :| m in s;
    LeRefl(m);
    var rest := s - {m};
    if rest == {} {
      assert s == {m};
      assert IsLeast(m, s);
    } else {
      LeastExists(rest);
      var n :| IsLeast(n, rest);
      LeTotal(m, n);
      if Le(n, m) {
        assert IsLeast(n, s);
      } else {
        forall x | x in s ensures Le(m, x) {
          if x != m { LeTransitive(m, n, x); }
        }
        assert IsLeast(m, s);
      }
    }
  }

  /** `sorted(s)` for a set of strings. */
  ghost function Sorted(s: set<Id>): (r: seq<Id>)
    ensures Ascending(r)
    ensures forall x :: x in r <==> x in s
    ensures |r| == |s|
    decreases |s|
  {
    if s == {} then []
    else
      LeastExists(s);
      var m :| IsLeast(m, s);
      var rest := Sorted(s - {m});
      assert forall j :: 0 <= j < |rest| ==> rest[j] in rest;
      assert forall x :: x in s <==> x == m || x in s - {m};
      [m] + rest
  }

  /** Computes `sorted(s)`. */
  method SortIds(s: set<Id>) returns (r: seq<Id>)
    ensures r == Sorted(s)
  {
    r := [];
    var pending := s;
    while pending != {}
      invariant pending <= s && Ascending(r)
      invariant forall x :: x in r <==> x in s - pending
      invariant forall i, x :: 0 <= i < |r| && x in pending ==> Lt(r[i], x)
      decreases pending
    {
      LeastExists(pending);
      UniqueLeast(pending);
      var m :| m in pending && forall x :: x in pending ==> Le(m, x);
      r := r + [m];
      pending := pending - {m};
    }
    AscendingUnique(r, Sorted(s));
  }

  lemma UniqueLeast(s: set<Id>)
    ensures forall m, n :: IsLeast(m, s) && IsLeast(n, s) ==> m == n
  {
    forall m, n | IsLeast(m, s) && IsLeast(n, s) ensures m == n {
      LeAntisymmetric(m, n);
    }
  }

  /** An ascending list is determined by its elements. */
  lemma {:induction false} AscendingUnique(a: seq<Id>, b: seq<Id>)
    requires Ascending(a) && Ascending(b)
    requires forall x :: x in a <==> x in b
    ensures a == b
  {
    assert b != [] ==> b[0] in b;
    if a == [] {
    } else {
      assert a[0] in b && b[0] in a;
      if a[0] != b[0] {
        var i :| 0 <= i < |b| && b[i] == a[0];
        var j :| 0 <= j < |a| && a[j] == b[0];
        assert Lt(b[0], b[i]) && Lt(a[0], a[j]);
        LeAntisymmetric(a[0], b[0]);
      }
      assert a == [a[0]] + a[1..] && b == [b[0]] + b[1..];
      assert forall j :: 1 <= j < |a| ==> Lt(a[0], a[j]);
      assert forall j :: 1 <= j < |b| ==> Lt(b[0], b[j]);
      assert a[0] !in a[1..] && b[0] !in b[1..];
      assert forall x :: x in a <==> x == a[0] || x in a[1..];
      assert forall x :: x in b <==> x == b[0] || x in b[1..];
      AscendingUnique(a[1..], b[1..]);
      assert a == [a[0]] + a[1..] && b == [b[0]] + b[1..];
    }
  }

  // --------------------------------------------------------------- endpoints

  /** Index of the last '.' of `s`, or -1. */
  function LastDot(s: string): (k: int)
    ensures -1 <= k < |s|
    ensures k >= 0 ==> s[k] == '.' && '.' !in s[k + 1..]
    ensures k < 0 <==> '.' !in s
  {
    if s == [] then -1
    else if s[|s| - 1] == '.' then |s| - 1
    else
      var k := LastDot(s[..|s| - 1]);
      assert s == s[..|s| - 1] + [s[|s| - 1]];
      assert k >= 0 ==> s[k + 1..] == s[..|s| - 1][k + 1..] + [s[|s| - 1]];
      k
  }

  /** `s.rpartition(".")[0]`: the component part of an endpoint, "" without a dot. */
  function ComponentOf(s: string): string {
    if LastDot(s) < 0 then "" else s[..LastDot(s)]
  }

  /** `s.rpartition(".")[2]`: the port part of an endpoint, all of it without a dot. */
  function PortOf(s: string): string {
    s[LastDot(s) + 1..]
  }

  predicate Dotted(s: string) {
    '.' in s
  }

  /** A component id, which may itself hold dots, joined to a port name. */
  function Join(component: Id, port: string): string {
    component + "." + port
  }

  /** Splitting undoes joining exactly when the port name is dot-free. */
  lemma {:induction false} SplitJoin(component: Id, port: string)
    ensures '.' !in port <==> ComponentOf(Join(component, port)) == component
    ensures '.' !in port <==> PortOf(Join(component, port)) == port
  {
    var s := Join(component, port);
    var k := LastDot(s);
    assert s[|component|] == '.';
    assert s[|component| + 1..] == port;
    assert forall j :: 0 <= j <= |component| ==> s[j..][|component| - j] == '.';
    assert k >= |component|;
    assert k > |component| ==> port[k - |component| - 1] == '.';
    assert k == |component| ==> s[..k] == component && s[k + 1..] == port;
    assert |s[..k]| == k && |s[k + 1..]| == |s| - k - 1;
  }

  /** Joining undoes splitting exactly on dotted endpoints. */
  lemma JoinSplit(s: string)
    ensures Dotted(s) <==> Join(ComponentOf(s), PortOf(s)) == s
  {
    if Dotted(s) {
      assert s == s[..LastDot(s)] + [s[LastDot(s)]] + s[LastDot(s) + 1..];
    } else {
      assert |Join(ComponentOf(s), PortOf(s))| == |s| + 1;
    }
  }

  // ---------------------------------------------------------------- numerals

  /** `str` of an integer. */
  function Numeral(n: int): string {
    if n < 0 then "-" + Digits(-n) else Digits(n)
  }

  function Digits(n: nat): string {
    (if n < 10 then "" else Digits(n / 10)) + ["0123456789"[n % 10]]
  }

  predicate IsDigit(c: char) {
    '0' <= c <= '9'
  }

  /** The number a decimal numeral stands for. */
  function NumberOf(s: string): nat
    requires forall k :: 0 <= k < |s| ==> IsDigit(s[k])
  {
    if s == "" then 0
    else
      assert IsDigit(s[|s| - 1]);
      10 * NumberOf(s[..|s| - 1]) + (s[|s| - 1] as int - '0' as int)
  }

  /** Reading a numeral back: no number but 0 starts with a 0, and the digits stand for the number. */
  lemma {:induction false} DigitsReadBack(n: nat)
    ensures Digits(n) != "" && (forall k :: 0 <= k < |Digits(n)| ==> IsDigit(Digits(n)[k]))
    ensures NumberOf(Digits(n)) == n
    ensures n > 0 ==> Digits(n)[0] != '0'
  {
    var digit := "0123456789"[n % 10];
    assert digit as int == '0' as int + n % 10 && IsDigit(digit);
    if n < 10 {
      assert Digits(n)[..0] == "";
    } else {
      DigitsReadBack(n / 10);
      assert Digits(n)[..|Digits(n)| - 1] == Digits(n / 10);
    }
  }

  /** Different numbers have different numerals. */
  lemma NumeralsDiffer(m: int, n: int)
    ensures Numeral(m) == Numeral(n) <==> m == n
  {
    DigitsReadBack(if m < 0 then -m else m);
    DigitsReadBack(if n < 0 then -n else n);
    if Numeral(m) == Numeral(n) {
      assert m < 0 <==> Numeral(m)[0] == '-';
      assert n < 0 <==> Numeral(n)[0] == '-';
      if m < 0 {
        assert Numeral(m)[1..] == Digits(-m) && Numeral(n)[1..] == Digits(-n);
      }
    }
  }
}
