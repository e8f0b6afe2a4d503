/** Copying between disjoint buffers, joining sequences, and what else is common to buffers. */
module Copies {

  function Overwritten<T>(s: seq<T>, at: nat, data: seq<T>): (result: seq<T>)
    requires at + |data| <= |s|
    ensures |result| == |s|
    ensures forall k | 0 <= k < |s| :: result[k] == if at <= k < at + |data| then data[k - at] else s[k]
  {
    s[..at] + data + s[at + |data|..]
  }

  function Least(a: int, b: int): (r: int)
    ensures r <= a && r <= b && (r == a || r == b)
  {
    if a <= b then a else b
  }

  method Copy<T>(target: array<T>, to: nat, source: array<T>, from: nat, n: nat)
    requires target != source && to + n <= target.Length && from + n <= source.Length
    modifies target
    ensures target[..] == Overwritten(old(target[..]), to, source[from..from + n])
  {
    forall k | 0 <= k < n {
      target[to + k] := source[from + k];
    }
  }

  // ---------- areas ----------

  predicate Clear(a: nat, m: nat, b: nat, n: nat) {
    a + m <= b || b + n <= a
  }

  predicate InArea(x: nat, a: nat, n: nat) {
    a <= x < a + n
  }

  /** Areas are clear of each other exactly if they share no byte. */
  lemma ClearExact(a: nat, m: nat, b: nat, n: nat)
    requires m > 0 && n > 0
    ensures Clear(a, m, b, n) <==> forall x: nat :: !(InArea(x, a, m) && InArea(x, b, n))
  {
    if !Clear(a, m, b, n) {
      var x := if a < b then b else a;
      assert InArea(x, a, m) && InArea(x, b, n);
    }
  }

  // ---------- sequences ----------

  lemma Exactly<T>(s: seq<T>, at: nat, data: seq<T>)
    requires at + |data| <= |s|
    ensures Overwritten(s, at, data)[at..at + |data|] == data
  {
  }

  lemma Reassociate<T>(a: seq<T>, b: seq<T>, c: seq<T>)
    ensures (a + b) + c == a + (b + c)
  {
  }
}
