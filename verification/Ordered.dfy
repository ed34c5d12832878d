/** Ascending enumeration of finite sets of numbers: the iteration order of std::map. */
module Ordered {
  import opened Bytes

  lemma {:induction false} LeastExists(s: set<nat>)
    requires s != {}
    ensures exists x :: x in s && forall y | y in s :: x <= y
    decreases |s|
  {
    var x :| x in s;
    if y :| y in s && y < x {
      var rest := s - {x};
      assert rest != {} by { assert y in rest; }
      LeastExists(rest);
      var m :| m in rest && forall z | z in rest :: m <= z;
      assert forall z | z in s :: z == x || z in rest;
      assert m in s && forall z | z in s :: m <= z;
    }
  }

  function Least(s: set<nat>): (x: nat)
    requires s != {}
    ensures x in s && forall y | y in s :: x <= y
  {
    LeastExists(s);
    var x :| x in s && forall y | y in s :: x <= y;
    x
  }

  /** The members of `s`, each once, in ascending order. */
  ghost predicate Enumerates(s: set<nat>, r: seq<nat>) {
    && (forall x :: x in r <==> x in s)
    && |r| == |s|
    && (forall i, j | 0 <= i < j < |r| :: r[i] < r[j])
  }

  lemma EnumeratesFrom(s: set<nat>, x: nat, rest: seq<nat>)
    requires x in s && (forall y | y in s :: x <= y) && Enumerates(s - {x}, rest)
    ensures Enumerates(s, [x] + rest)
  {
    assert |s - {x}| == |s| - 1;
    assert forall y :: y in [x] + rest <==> y == x || y in rest;
    assert forall i | 0 <= i < |rest| :: rest[i] in s - {x};
  }

  function Ascending(s: set<nat>): (r: seq<nat>)
    ensures Enumerates(s, r)
    decreases |s|
  {
    if s == {} then []
    else
      var x := Least(s);
      var rest := Ascending(s - {x});
      EnumeratesFrom(s, x, rest);
      [x] + rest
  }

  /** Big-endian bytes of a number, `len` of them. */
  function BigEndian(n: nat, len: nat): (r: Bytes)
    ensures |r| == len
    decreases len, n
  {
    if len == 0 then [] else BigEndian(n / 256, len - 1) + [n % 256]
  }

  /** Little-endian bytes of a number, `len` of them. */
  function LittleEndian(n: nat, len: nat): (r: Bytes)
    ensures |r| == len
    decreases len, n
  {
    if len == 0 then [] else [n % 256] + LittleEndian(n / 256, len - 1)
  }

  function FromLittleEndian(s: Bytes): nat {
    if s == [] then 0 else s[0] + 256 * FromLittleEndian(s[1..])
  }

  lemma {:induction false} LittleEndianReadBack(n: nat, len: nat, bound: nat)
    requires n < bound && bound == Pow256(len)
    ensures FromLittleEndian(LittleEndian(n, len)) == n
    decreases len
  {
    if len > 0 {
      LittleEndianReadBack(n / 256, len - 1, Pow256(len - 1));
      assert LittleEndian(n, len)[1..] == LittleEndian(n / 256, len - 1);
    }
  }

  lemma {:induction false} BigEndianInjective(a: nat, b: nat, len: nat)
    requires BigEndian(a, len) == BigEndian(b, len)
    requires a < Pow256(len) && b < Pow256(len)
    ensures a == b
    decreases len
  {
    if len > 0 {
      var x, y := BigEndian(a, len), BigEndian(b, len);
      assert x[len - 1] == a % 256 && y[len - 1] == b % 256;
      assert x[..len - 1] == BigEndian(a / 256, len - 1) && y[..len - 1] == BigEndian(b / 256, len - 1);
      BigEndianInjective(a / 256, b / 256, len - 1);
    }
  }

  function Pow256(k: nat): (r: nat)
    ensures r > 0
  {
    if k == 0 then 1 else 256 * Pow256(k - 1)
  }
}
