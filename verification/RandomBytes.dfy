/** The random number source of libsodium: words come from buffered refills of a stream cipher. */
module RandomBytes {
  import opened Words
  import Gf2

  const KEY_SIZE: nat := 32
  const BUFFER_SIZE: nat := 1024
  const WORD_SIZE: nat := 4
  const ENTROPY_SIZE: nat := 271  // of a seed
  const OUT_SIZE: nat := 992      // the buffer without the bytes that go into the next key
  const NONCES: nat := 0x1_0000_0000_0000_0000

  function Mix(a: Byte, b: Byte): Byte {
    ByteBits();
    Gf2.XorBelow(a, b, 8);
    Xor(a, b)
  }

  lemma ByteBits()
    ensures Pow2(8) == 0x100
  {
    assert Pow2(4) == 16;
  }

  function XorBytes(a: seq<Byte>, b: seq<Byte>): (r: seq<Byte>)
    requires |a| <= |b|
    ensures |r| == |a|
  {
    seq(|a|, i requires 0 <= i < |a| => Mix(a[i], b[i]))
  }

  /** The bytes of a length as they lie in memory, lowest first. */
  function SizeBytes(size: nat, n: nat): (r: seq<Byte>)
    ensures |r| == n
    decreases n
  {
    if n == 0 then [] else [size % 0x100] + SizeBytes(size / 0x100, n - 1)
  }

  /** The functions whose inside does not matter: the cipher's key stream and a keyed hash. */
  datatype Primitives = Primitives(salsa20: (nat, seq<Byte>, nat) -> Byte, hmac: (seq<Byte>, nat) -> Byte)
  {
    function KeyStream(n: nat, nonce: nat, key: seq<Byte>): (r: seq<Byte>)
      ensures |r| == n
    {
      seq<Byte>(n, i requires 0 <= i < n => salsa20(nonce, key, i))
    }

    /** The key from fresh entropy: a hash of most of it, mixed with the rest. */
    function SeedKey(entropy: seq<Byte>): (r: seq<Byte>)
      requires |entropy| >= KEY_SIZE
      ensures |r| == KEY_SIZE
    {
      XorBytes(seq<Byte>(KEY_SIZE, i requires 0 <= i < KEY_SIZE => hmac(entropy[KEY_SIZE..], i)), entropy[..KEY_SIZE])
    }
  }

  // ---------- the specification ----------

  /** A key with its nonce, and what is left of the last refill. */
  datatype Pool = Pool(key: seq<Byte>, nonce: nat, refill: seq<Byte>, left: nat)
  {
    ghost predicate Valid() {
      |key| == KEY_SIZE && |refill| == BUFFER_SIZE && left % WORD_SIZE == 0 && left <= OUT_SIZE
    }

    /** A new refill, whose last bytes change the key. */
    function Refilled(c: Primitives): (p: Pool)
      requires Valid()
      ensures p.Valid() && p.left == OUT_SIZE
    {
      var r := c.KeyStream(BUFFER_SIZE, nonce, key);
      Pool(XorBytes(key, r[OUT_SIZE..]), (nonce + 1) % NONCES, r, OUT_SIZE)
    }

    /** A refill if nothing is left. */
    function Ready(c: Primitives): (p: Pool)
      requires Valid()
      ensures p.Valid() && p.left >= WORD_SIZE
    {
      if left == 0 then Refilled(c) else this
    }

    /** The last word not yet delivered. */
    function Word(): seq<Byte>
      requires Valid() && left >= WORD_SIZE
    {
      refill[left - WORD_SIZE..left]
    }

    /** Seeding empties the buffer. */
    function Seeded(c: Primitives, entropy: seq<Byte>, seedNonce: nat): (p: Pool)
      requires Valid() && |entropy| == ENTROPY_SIZE
      ensures p.Valid() && p.left == 0
    {
      Pool(c.SeedKey(entropy), seedNonce, seq(BUFFER_SIZE, _ => 0), 0)
    }

    /** The key with the length of a buffer in its first eight bytes. */
    function Mixed(size: nat): (k: seq<Byte>)
      requires Valid()
      ensures |k| == KEY_SIZE
    {
      XorBytes(key[..8], SizeBytes(size, 8)) + key[8..]
    }

    /** A buffer filled directly changes the key twice, but not what is left of the refill. */
    function Stretched(c: Primitives, size: nat): (p: Pool)
      requires Valid()
      ensures p.Valid()
    {
      var mixed := Mixed(size);
      this.(key := XorBytes(mixed, c.KeyStream(KEY_SIZE, (nonce + 1) % NONCES, mixed)), nonce := (nonce + 1) % NONCES)
    }

    function Taken(): (p: Pool)
      requires Valid() && left >= WORD_SIZE
      ensures p.Valid()
    {
      this.(left := left - WORD_SIZE)
    }
  }

  /** The words of n calls. */
  function Delivered(p: Pool, c: Primitives, n: nat): (words: seq<seq<Byte>>)
    requires p.Valid()
    ensures |words| == n
    decreases n
  {
    if n == 0 then [] else [p.Ready(c).Word()] + Delivered(p.Ready(c).Taken(), c, n - 1)
  }

  function After(p: Pool, c: Primitives, n: nat): (q: Pool)
    requires p.Valid()
    ensures q.Valid()
    decreases n
  {
    if n == 0 then p else After(p.Ready(c).Taken(), c, n - 1)
  }

  lemma NoneDelivered(p: Pool, c: Primitives)
    requires p.Valid()
    ensures Delivered(p, c, 0) == [] && After(p, c, 0) == p
  {
  }

  lemma FirstOf(p: Pool, c: Primitives, n: nat)
    requires p.Valid() && n > 0
    ensures Delivered(p, c, n) == [p.Ready(c).Word()] + Delivered(p.Ready(c).Taken(), c, n - 1)
    ensures After(p, c, n) == After(p.Ready(c).Taken(), c, n - 1)
  {
  }

  /** The word of one call more. */
  lemma {:induction false} OneMore(p: Pool, c: Primitives, n: nat)
    requires p.Valid()
    ensures Delivered(p, c, n + 1) == Delivered(p, c, n) + [After(p, c, n).Ready(c).Word()]
    ensures After(p, c, n + 1) == After(p, c, n).Ready(c).Taken()
    decreases n
  {
    hide Pool.Ready, Pool.Word, Pool.Taken;
    if n > 0 {
      OneMore(p.Ready(c).Taken(), c, n - 1);
    } else {
      assert Delivered(p.Ready(c).Taken(), c, 0) == [] && After(p.Ready(c).Taken(), c, 0) == p.Ready(c).Taken();
    }
  }

  /** Within one refill, the words come from the top down, and the key does not change. */
  lemma {:induction false} TopDown(p: Pool, c: Primitives, n: nat)
    requires p.Valid() && WORD_SIZE * n <= p.left
    ensures After(p, c, n) == p.(left := p.left - WORD_SIZE * n)
    ensures forall i | 0 <= i < n ::
      Delivered(p, c, n)[i] == p.refill[p.left - WORD_SIZE * i - WORD_SIZE..p.left - WORD_SIZE * i]
    decreases n
  {
    if n > 0 {
      var next := p.Ready(c).Taken();
      TopDown(next, c, n - 1);
      forall i | 0 <= i < n
        ensures Delivered(p, c, n)[i] == p.refill[p.left - WORD_SIZE * i - WORD_SIZE..p.left - WORD_SIZE * i]
      {
        if i > 0 {
          assert Delivered(p, c, n)[i] == Delivered(next, c, n - 1)[i - 1];
        }
      }
    }
  }

  /** The words of a whole refill, last one first. */
  function Reversed(r: seq<Byte>, words: nat): seq<seq<Byte>>
    requires WORD_SIZE * words <= |r|
    decreases words
  {
    if words == 0 then [] else [r[WORD_SIZE * (words - 1)..WORD_SIZE * words]] + Reversed(r, words - 1)
  }

  /**
   * From an empty buffer, each 248 words are one refill without its last 32 bytes, which are
   * never delivered: they go into the key of the next refill.
   */
  lemma OneRefill(p: Pool, c: Primitives)
    requires p.Valid() && p.left == 0
    ensures
      var r := c.KeyStream(BUFFER_SIZE, p.nonce, p.key);
      && Delivered(p, c, 248) == Reversed(r, 248)
      && After(p, c, 248) == Pool(XorBytes(p.key, r[OUT_SIZE..]), (p.nonce + 1) % NONCES, r, 0)
  {
    hide Delivered, After, Reversed;
    RefillFirst(p, c, 248);
    AllReversed(p.Refilled(c), c, 248);
    TopDown(p.Refilled(c), c, 248);
  }

  lemma RefillFirst(p: Pool, c: Primitives, n: nat)
    requires p.Valid() && p.left == 0 && n > 0
    ensures Delivered(p, c, n) == Delivered(p.Refilled(c), c, n) && After(p, c, n) == After(p.Refilled(c), c, n)
  {
  }

  lemma {:induction false} AllReversed(p: Pool, c: Primitives, n: nat)
    requires p.Valid() && p.left == WORD_SIZE * n
    ensures Delivered(p, c, n) == Reversed(p.refill, n)
    decreases n
  {
    if n > 0 {
      AllReversed(p.Ready(c).Taken(), c, n - 1);
    }
  }

  // ---------- the keys ----------

  /** Mixing changes a key in as many ways as there are bytes to mix in, and not at all with zeros. */
  lemma MixesAll(key: seq<Byte>, x: seq<Byte>, y: seq<Byte>)
    requires |key| == |x| == |y|
    ensures XorBytes(key, x) == XorBytes(key, y) <==> x == y
    ensures XorBytes(key, x) == key <==> forall i | 0 <= i < |x| :: x[i] == 0
  {
    hide Mix;
    MixesEach(key, x, y);
    var zeros := seq<Byte>(|x|, _ => 0);
    MixesEach(key, x, zeros);
    forall i | 0 <= i < |x|
      ensures XorBytes(key, zeros)[i] == key[i]
    {
      NoMix(key[i]);
    }
    assert XorBytes(key, zeros) == key;
  }

  lemma MixesEach(key: seq<Byte>, x: seq<Byte>, y: seq<Byte>)
    requires |key| == |x| == |y|
    ensures XorBytes(key, x) == XorBytes(key, y) <==> x == y
  {
    hide Mix;
    if XorBytes(key, x) == XorBytes(key, y) {
      forall i | 0 <= i < |x|
        ensures x[i] == y[i]
      {
        assert Mix(key[i], x[i]) == XorBytes(key, x)[i] == XorBytes(key, y)[i] == Mix(key[i], y[i]);
        Cancels(key[i], x[i], y[i]);
      }
    }
  }

  lemma MixedInto(x: seq<Byte>, y: seq<Byte>, mix: seq<Byte>)
    requires |x| == |y| == |mix|
    ensures XorBytes(x, mix) == XorBytes(y, mix) <==> x == y
  {
    hide Mix;
    if XorBytes(x, mix) == XorBytes(y, mix) {
      forall i | 0 <= i < |x|
        ensures x[i] == y[i]
      {
        assert Mix(x[i], mix[i]) == XorBytes(x, mix)[i] == XorBytes(y, mix)[i] == Mix(y[i], mix[i]);
        Cancels(mix[i], x[i], y[i]);
      }
    }
  }

  lemma Cancels(k: Byte, x: Byte, y: Byte)
    ensures Mix(k, x) == Mix(k, y) <==> x == y
    ensures Mix(x, k) == Mix(y, k) <==> x == y
  {
    hide Xor;
    Gf2.XorSymmetric(k, x);
    Gf2.XorSymmetric(k, y);
    if Mix(x, k) == Mix(y, k) {
      Gf2.XorCancel(x, y, k);
    }
  }

  lemma NoMix(k: Byte)
    ensures Mix(k, 0) == k
  {
    hide Xor;
    XorZero(k);
  }

  /** Refills that end differently lead to different keys, and each refill to another nonce. */
  lemma NextKey(p: Pool, q: Pool, c: Primitives)
    requires p.Valid() && q.Valid() && p.key == q.key && p.nonce < NONCES
    ensures
      var r, s := c.KeyStream(BUFFER_SIZE, p.nonce, p.key), c.KeyStream(BUFFER_SIZE, q.nonce, q.key);
      p.Refilled(c).key == q.Refilled(c).key <==> r[OUT_SIZE..] == s[OUT_SIZE..]
    ensures p.Refilled(c).nonce != p.nonce && (p.nonce + 1 < NONCES ==> p.Refilled(c).nonce == p.nonce + 1)
  {
    var r, s := c.KeyStream(BUFFER_SIZE, p.nonce, p.key), c.KeyStream(BUFFER_SIZE, q.nonce, q.key);
    MixesAll(p.key, r[OUT_SIZE..], s[OUT_SIZE..]);
  }

  /** Entropy that differs only in the part that is mixed in gives different keys. */
  lemma SeedsDiffer(c: Primitives, a: seq<Byte>, b: seq<Byte>)
    requires |a| == |b| == ENTROPY_SIZE && a[KEY_SIZE..] == b[KEY_SIZE..]
    ensures c.SeedKey(a) == c.SeedKey(b) <==> a == b
  {
    var hash := seq<Byte>(KEY_SIZE, i requires 0 <= i < KEY_SIZE => c.hmac(a[KEY_SIZE..], i));
    assert c.SeedKey(a) == XorBytes(hash, a[..KEY_SIZE]) && c.SeedKey(b) == XorBytes(hash, b[..KEY_SIZE]);
    MixesAll(hash, a[..KEY_SIZE], b[..KEY_SIZE]);
    assert a == a[..KEY_SIZE] + a[KEY_SIZE..] && b == b[..KEY_SIZE] + b[KEY_SIZE..];
  }

  /** Entropy that differs only in the hashed part gives different keys exactly if the hashes differ. */
  lemma HashesDiffer(c: Primitives, a: seq<Byte>, b: seq<Byte>)
    requires |a| == |b| == ENTROPY_SIZE && a[..KEY_SIZE] == b[..KEY_SIZE]
    ensures c.SeedKey(a) == c.SeedKey(b) <==>
      forall i | 0 <= i < KEY_SIZE :: c.hmac(a[KEY_SIZE..], i) == c.hmac(b[KEY_SIZE..], i)
  {
    hide Mix;
    var x := seq<Byte>(KEY_SIZE, i requires 0 <= i < KEY_SIZE => c.hmac(a[KEY_SIZE..], i));
    var y := seq<Byte>(KEY_SIZE, i requires 0 <= i < KEY_SIZE => c.hmac(b[KEY_SIZE..], i));
    assert c.SeedKey(a) == XorBytes(x, a[..KEY_SIZE]) && c.SeedKey(b) == XorBytes(y, a[..KEY_SIZE]);
    MixedInto(x, y, a[..KEY_SIZE]);
    assert forall i | 0 <= i < KEY_SIZE :: x[i] == c.hmac(a[KEY_SIZE..], i) && y[i] == c.hmac(b[KEY_SIZE..], i);
  }

  /** The bytes of a length tell it. */
  lemma {:induction false} SizesDiffer(x: nat, y: nat, n: nat)
    ensures SizeBytes(x, n) == SizeBytes(y, n) <==> x % Power256(n) == y % Power256(n)
    decreases n
  {
    if n > 0 {
      hide Power256;
      SizesDiffer(x / 0x100, y / 0x100, n - 1);
      PowerStep(n);
      LowByte(x, Power256(n - 1));
      LowByte(y, Power256(n - 1));
      var a, b := SizeBytes(x, n), SizeBytes(y, n);
      assert a[1..] == SizeBytes(x / 0x100, n - 1) && b[1..] == SizeBytes(y / 0x100, n - 1);
      if a[0] == b[0] && a[1..] == b[1..] {
        assert a == [a[0]] + a[1..] && b == [b[0]] + b[1..];
      }
    } else {
      PowerNone();
    }
  }

  lemma PowerStep(n: nat)
    requires n > 0
    ensures Power256(n) == 0x100 * Power256(n - 1)
  {
  }

  lemma PowerNone()
    ensures Power256(0) == 1
  {
  }

  /**
   * Buffers of different lengths (below 2^64) change the key differently, and then the key stream of
   * the next nonce changes it again, unless that is all zeros.
   */
  lemma StretchedKeys(p: Pool, c: Primitives, x: nat, y: nat)
    requires p.Valid() && p.nonce < NONCES
    ensures p.Mixed(x) == p.Mixed(y) <==> x % NONCES == y % NONCES
    ensures p.Stretched(c, x).key == p.Mixed(x) <==>
      forall i | 0 <= i < KEY_SIZE :: c.salsa20(p.Stretched(c, x).nonce, p.Mixed(x), i) == 0
    ensures p.Stretched(c, x).nonce != p.nonce
  {
    hide Mix, SizeBytes, Power256;
    SizesDiffer(x, y, 8);
    EightBytes();
    MixesAll(p.key[..8], SizeBytes(x, 8), SizeBytes(y, 8));
    assert p.Mixed(x)[..8] == XorBytes(p.key[..8], SizeBytes(x, 8));
    assert p.Mixed(y)[..8] == XorBytes(p.key[..8], SizeBytes(y, 8));
    var stream := c.KeyStream(KEY_SIZE, p.Stretched(c, x).nonce, p.Mixed(x));
    MixesAll(p.Mixed(x), stream, stream);
    assert forall i | 0 <= i < KEY_SIZE :: stream[i] == c.salsa20(p.Stretched(c, x).nonce, p.Mixed(x), i);
  }

  lemma EightBytes()
    ensures Power256(8) == NONCES
  {
    assert Power256(2) == 0x1_0000 && Power256(4) == 0x1_0000_0000;
  }

  function Power256(n: nat): (p: nat)
    ensures p > 0
  {
    if n == 0 then 1 else 0x100 * Power256(n - 1)
  }

  lemma LowByte(x: nat, p: nat)
    requires p > 0
    ensures x % (0x100 * p) == x % 0x100 + 0x100 * (x / 0x100 % p)
  {
    var q, h := x / 0x100, x / 0x100 / p;
    assert x == 0x100 * q + x % 0x100 && q == h * p + q % p;
    assert x == h * (0x100 * p) + (x % 0x100 + 0x100 * (q % p));
    assert q % p + 1 <= p;
    Remainders(h, 0x100 * p, x % 0x100 + 0x100 * (q % p), x);
  }

  lemma Remainders(h: nat, d: nat, r: nat, x: nat)
    requires d > 0 && r < d && x == h * d + r
    ensures x % d == r
  {
    DivUnique(x, d, h, r);
  }

  // ---------- the code ----------

  class RandomBytes {
    const primitives: Primitives

    var key: array<Byte>
    var rnd32: array<Byte>
    var nonce: nat
    var outleft: nat
    var initialized: bool

    ghost var refill: seq<Byte>

    /** What is left is in the buffer, and what was delivered is erased. */
    ghost predicate Valid()
      reads this, key, rnd32
    {
      && key != rnd32 && key.Length == KEY_SIZE && rnd32.Length == BUFFER_SIZE && |refill| == BUFFER_SIZE
      && outleft % WORD_SIZE == 0 && outleft <= OUT_SIZE && nonce < NONCES
      && rnd32[..outleft] == refill[..outleft]
      && forall i | outleft <= i < OUT_SIZE :: rnd32[i] == 0
    }

    ghost function Current(): (p: Pool)
      requires Valid()
      reads this, key, rnd32
      ensures p.Valid()
    {
      Pool(key[..], nonce, refill, outleft)
    }

    constructor (primitives: Primitives)
      ensures Valid() && fresh(key) && fresh(rnd32) && !initialized && outleft == 0
      ensures this.primitives == primitives
    {
      this.primitives := primitives;
      key, rnd32 := new Byte[KEY_SIZE](_ => 0), new Byte[BUFFER_SIZE](_ => 0);
      nonce, outleft, initialized := 0, 0, false;
      refill := seq(BUFFER_SIZE, _ => 0);
    }

    method Rekey(mix: seq<Byte>)
      requires Valid() && |mix| == KEY_SIZE
      modifies key
      ensures key[..] == XorBytes(old(key[..]), mix)
    {
      for i := 0 to KEY_SIZE
        invariant forall j | 0 <= j < i :: key[j] == Mix(old(key[j]), mix[j])
        invariant forall j | i <= j < KEY_SIZE :: key[j] == old(key[j])
      {
        key[i] := Mix(key[i], mix[i]);
      }
    }

    /** Seeds the source. The nonce comes from the collector only the first time. */
    method Stir(entropy: seq<Byte>, seedNonce: nat)
      requires Valid() && |entropy| == ENTROPY_SIZE && seedNonce < NONCES
      modifies this, key, rnd32
      ensures Valid() && initialized && key == old(key) && rnd32 == old(rnd32)
      ensures
        var first := if old(initialized) then old(nonce) else seedNonce;
        Current() == old(Current()).Seeded(primitives, entropy, first)
    {
      forall i | 0 <= i < BUFFER_SIZE {
        rnd32[i] := 0;
      }
      outleft := 0;
      if !initialized {
        nonce, initialized := seedNonce, true;
      }
      forall i | 0 <= i < KEY_SIZE {
        key[i] := primitives.hmac(entropy[KEY_SIZE..], i);
      }
      refill := seq(BUFFER_SIZE, _ => 0);
      ghost var hash := seq<Byte>(KEY_SIZE, i requires 0 <= i < KEY_SIZE => primitives.hmac(entropy[KEY_SIZE..], i));
      assert key[..] == hash;
      Rekey(entropy[..KEY_SIZE]);
    }

    method StirIfNeeded(entropy: seq<Byte>, seedNonce: nat)
      requires Valid() && |entropy| == ENTROPY_SIZE && seedNonce < NONCES
      modifies this, key, rnd32
      ensures Valid() && initialized && key == old(key) && rnd32 == old(rnd32)
      ensures Current() == if old(initialized) then old(Current())
        else old(Current()).Seeded(primitives, entropy, seedNonce)
    {
      if !initialized {
        Stir(entropy, seedNonce);
      }
    }

    method Refill()
      requires Valid()
      modifies this`nonce, this`outleft, this`refill, key, rnd32
      ensures Valid() && Current() == old(Current()).Refilled(primitives)
    {
      ghost var k := key[..];
      forall i | 0 <= i < BUFFER_SIZE {
        rnd32[i] := primitives.salsa20(nonce, key[..], i);
      }
      refill := primitives.KeyStream(BUFFER_SIZE, nonce, k);
      assert rnd32[..] == refill;
      outleft := OUT_SIZE;
      assert rnd32[OUT_SIZE..] == refill[OUT_SIZE..];
      Rekey(rnd32[OUT_SIZE..]);
      nonce := (nonce + 1) % NONCES;
    }

    /** Returns the next word of the specification. An empty buffer is refilled, if need be after seeding. */
    method GetWord(entropy: seq<Byte>, seedNonce: nat) returns (word: seq<Byte>)
      requires Valid() && |entropy| == ENTROPY_SIZE && seedNonce < NONCES
      modifies this, key, rnd32
      ensures Valid() && key == old(key) && rnd32 == old(rnd32) && initialized == old(initialized || outleft == 0)
      ensures
        var pool := if old(outleft > 0 || initialized) then old(Current())
          else old(Current()).Seeded(primitives, entropy, seedNonce);
        word == pool.Ready(primitives).Word() && Current() == pool.Ready(primitives).Taken()
    {
      if outleft <= 0 {
        StirIfNeeded(entropy, seedNonce);
        Refill();
      }
      word := Take();
    }

    /** Words without a seeding between them. */
    method Series(n: nat, seeds: seq<(seq<Byte>, nat)>) returns (words: seq<seq<Byte>>)
      requires Valid() && (initialized || WORD_SIZE * n <= outleft)
      requires |seeds| == n && forall seed <- seeds :: |seed.0| == ENTROPY_SIZE && seed.1 < NONCES
      modifies this, key, rnd32
      ensures Valid() && key == old(key) && rnd32 == old(rnd32) && initialized == old(initialized)
      ensures words == Delivered(old(Current()), primitives, n) && Current() == After(old(Current()), primitives, n)
    {
      hide Delivered, After, Current;
      words := [];
      ghost var begin := Current();
      NoneDelivered(begin, primitives);
      for i := 0 to n
        invariant Valid() && key == old(key) && rnd32 == old(rnd32) && initialized == old(initialized)
        invariant words == Delivered(begin, primitives, i) && Current() == After(begin, primitives, i)
        invariant initialized || WORD_SIZE * (n - i) <= outleft
      {
        OneMore(begin, primitives, i);
        LeftAfter();
        var word := GetWord(seeds[i].0, seeds[i].1);
        LeftAfter();
        words := words + [word];
      }
    }

    lemma LeftAfter()
      requires Valid()
      ensures Current().left == outleft && Current().Ready(primitives).Taken().left
           == (if outleft == 0 then OUT_SIZE else outleft) - WORD_SIZE
    {
    }

    /**
     * The words of n calls are those of the specification. A source that was closed delivers what is
     * left first, then takes the seed of the call that needs it.
     */
    method Words(n: nat, seeds: seq<(seq<Byte>, nat)>) returns (words: seq<seq<Byte>>)
      requires Valid()
      requires |seeds| == n && forall seed <- seeds :: |seed.0| == ENTROPY_SIZE && seed.1 < NONCES
      modifies this, key, rnd32
      ensures Valid()
      ensures
        var begin := old(Current());
        var early := if old(initialized) || n <= begin.left / WORD_SIZE then n else begin.left / WORD_SIZE;
        var middle := After(begin, primitives, early);
        if early == n then words == Delivered(begin, primitives, n) && Current() == middle
        else
          var seeded := middle.Seeded(primitives, seeds[early].0, seeds[early].1);
          && words == Delivered(begin, primitives, early) + Delivered(seeded, primitives, n - early)
          && Current() == After(seeded, primitives, n - early)
    {
      hide Delivered, After, Current, Pool.Seeded;
      var early := if initialized || n <= outleft / WORD_SIZE then n else outleft / WORD_SIZE;
      LeftAfter();
      ghost var begin := Current();
      words := Series(early, seeds[..early]);
      if early < n {
        LeftAfter();
        TopDown(begin, primitives, early);
        var word := GetWord(seeds[early].0, seeds[early].1);
        ghost var seeded := After(begin, primitives, early).Seeded(primitives, seeds[early].0, seeds[early].1);
        FirstOf(seeded, primitives, n - early);
        var others := Series(n - early - 1, seeds[early + 1..]);
        words := words + ([word] + others);
      }
    }

    method Take() returns (word: seq<Byte>)
      requires Valid() && outleft > 0
      modifies this`outleft, rnd32
      ensures Valid() && word == old(Current()).Word() && Current() == old(Current()).Taken()
    {
      ghost var before := rnd32[..outleft];
      outleft := outleft - WORD_SIZE;
      word := rnd32[outleft..outleft + WORD_SIZE];
      assert word == before[outleft..];
      assert rnd32[..outleft] == before[..outleft];
      forall i | 0 <= i < WORD_SIZE {
        rnd32[outleft + i] := 0;
      }
      assert rnd32[..outleft] == before[..outleft];
    }

    /** Fills a buffer from the cipher directly. */
    method RandomBuf(size: nat, entropy: seq<Byte>, seedNonce: nat) returns (buf: seq<Byte>)
      requires Valid() && |entropy| == ENTROPY_SIZE && seedNonce < NONCES
      modifies this, key, rnd32
      ensures Valid()
      ensures
        var pool := if old(initialized) then old(Current()) else old(Current()).Seeded(primitives, entropy, seedNonce);
        buf == primitives.KeyStream(size, pool.nonce, pool.key) && Current() == pool.Stretched(primitives, size)
    {
      StirIfNeeded(entropy, seedNonce);
      buf := primitives.KeyStream(size, nonce, key[..]);
      MixSize(size);
      nonce := (nonce + 1) % NONCES;
      Rekey(primitives.KeyStream(KEY_SIZE, nonce, key[..]));
    }

    method MixSize(size: nat)
      requires Valid()
      modifies key
      ensures key[..] == XorBytes(old(key[..8]), SizeBytes(size, 8)) + old(key[8..])
    {
      hide SizeBytes;
      var bytes := SizeBytes(size, 8);
      for i := 0 to 8
        invariant forall j | 0 <= j < i :: key[j] == Mix(old(key[j]), bytes[j])
        invariant forall j | i <= j < KEY_SIZE :: key[j] == old(key[j])
      {
        key[i] := Mix(key[i], bytes[i]);
      }
    }

    method Close()
      requires Valid()
      modifies this`initialized
      ensures Valid() && !initialized && Current() == old(Current())
    {
      initialized := false;
    }
  }
}
