/** A checksum register that is fed bytes by exclusive or and stepped eight times for each. What follows
    from the algebra alone is proved here, for any register. */
module ShiftRegisters {
  import opened Octets

  /** `up` shifts the register away from the end that the steps consume. */
  datatype Machine<!W> = Machine(step: W -> W, xor: (W, W) -> W, load: byte -> W, up: W -> W, zero: W)

  function Steps<W>(m: Machine<W>, r: W, n: nat): W {
    if n == 0 then r else m.step(Steps(m, r, n - 1))
  }

  function Feed<W>(m: Machine<W>, r: W, s: seq<byte>): W
    decreases |s|
  {
    if |s| == 0 then r else Feed(m, Steps(m, m.xor(r, m.load(s[0])), 8), s[1..])
  }

  /** A byte string as one word, first byte lowest. */
  function Word<W>(m: Machine<W>, s: seq<byte>): W {
    if |s| == 0 then m.zero else m.xor(m.load(s[0]), m.up(Word(m, s[1..])))
  }

  ghost predicate Injective<W(!new)>(m: Machine<W>) {
    forall a, b :: m.step(a) == m.step(b) ==> a == b
  }

  ghost predicate Linear<W(!new)>(m: Machine<W>) {
    forall a, b :: m.step(m.xor(a, b)) == m.xor(m.step(a), m.step(b))
  }

  ghost predicate Associative<W(!new)>(m: Machine<W>) {
    forall a, b, c {:trigger m.xor(m.xor(a, b), c)} :: m.xor(m.xor(a, b), c) == m.xor(a, m.xor(b, c))
  }

  ghost predicate Cancels<W(!new)>(m: Machine<W>) {
    && (forall a, b, c {:trigger m.xor(a, b), m.xor(a, c)} :: m.xor(a, b) == m.xor(a, c) ==> b == c)
    && (forall a, b, c {:trigger m.xor(a, c), m.xor(b, c)} :: m.xor(a, c) == m.xor(b, c) ==> a == b)
  }

  ghost predicate Neutral<W(!new)>(m: Machine<W>) {
    forall a :: m.xor(a, m.zero) == a
  }

  /** All of these together. */
  ghost predicate Lawful<W(!new)>(m: Machine<W>, width: nat) {
    Injective(m) && Linear(m) && Associative(m) && Cancels(m) && Neutral(m) && Undoes(m, width)
  }

  /** Eight steps undo one shift for words of fewer than `width` bytes. */
  ghost predicate Undoes<W>(m: Machine<W>, width: nat) {
    forall s: seq<byte> {:trigger Word(m, s)} | |s| < width :: Steps(m, m.up(Word(m, s)), 8) == Word(m, s)
  }

  lemma {:induction false} StepsInjective<W(!new)>(m: Machine<W>, a: W, b: W, n: nat)
    requires Injective(m) && Steps(m, a, n) == Steps(m, b, n)
    ensures a == b
  {
    if n != 0 {
      StepsInjective(m, a, b, n - 1);
    }
  }

  lemma {:induction false} StepsLinear<W(!new)>(m: Machine<W>, a: W, b: W, n: nat)
    requires Linear(m)
    ensures Steps(m, m.xor(a, b), n) == m.xor(Steps(m, a, n), Steps(m, b, n))
  {
    if n != 0 {
      StepsLinear(m, a, b, n - 1);
    }
  }

  lemma {:induction false} StepsCompose<W>(m: Machine<W>, r: W, i: nat, n: nat)
    ensures Steps(m, Steps(m, r, i), n) == Steps(m, r, i + n)
  {
    if n != 0 {
      StepsCompose(m, r, i, n - 1);
    }
  }

  lemma {:induction false} FeedConcat<W>(m: Machine<W>, r: W, a: seq<byte>, b: seq<byte>)
    ensures Feed(m, r, a + b) == Feed(m, Feed(m, r, a), b)
    decreases |a|
  {
    if a == [] {
      assert a + b == b;
    } else {
      assert (a + b)[1..] == a[1..] + b;
      FeedConcat(m, Steps(m, m.xor(r, m.load(a[0])), 8), a[1..], b);
    }
  }

  lemma FeedSnoc<W>(m: Machine<W>, r: W, s: seq<byte>, b: byte, k: nat)
    requires k == 8
    ensures Feed(m, r, s + [b]) == Steps(m, m.xor(Feed(m, r, s), m.load(b)), k)
  {
    FeedConcat(m, r, s, [b]);
    assert [b][1..] == [];
  }

  /** One byte more, computed in two halves. */
  lemma FeedsTo<W>(m: Machine<W>, r: W, s: seq<byte>, b: byte, x: W, y: W, k: nat)
    requires x == m.step(m.step(m.step(m.step(m.xor(Feed(m, r, s), m.load(b)))))) && k == 8
    requires y == m.step(m.step(m.step(m.step(x))))
    ensures Feed(m, r, s + [b]) == y
  {
    FeedSnoc(m, r, s, b, k);
    var r0 := m.xor(Feed(m, r, s), m.load(b));
    FourMore(m, r0, k - 8);
    FourMore(m, r0, k - 4);
  }

  lemma FourMore<W>(m: Machine<W>, r: W, n: nat)
    ensures Steps(m, r, n + 4) == m.step(m.step(m.step(m.step(Steps(m, r, n)))))
  {
    assert Steps(m, r, n + 2) == m.step(m.step(Steps(m, r, n)));
  }

  /** Different registers stay different through any common suffix. */
  lemma {:induction false} FeedInjective<W(!new)>(m: Machine<W>, a: W, b: W, s: seq<byte>)
    requires Injective(m) && Cancels(m)
    requires Feed(m, a, s) == Feed(m, b, s)
    ensures a == b
    decreases |s|
  {
    if s != [] {
      var x := m.load(s[0]);
      FeedInjective(m, Steps(m, m.xor(a, x), 8), Steps(m, m.xor(b, x), 8), s[1..]);
      StepsInjective(m, m.xor(a, x), m.xor(b, x), 8);
    }
  }

  /** As many bytes as the register is wide enter it as one word in front of all the steps. */
  lemma {:induction false} FeedAtOnce<W(!new)>(m: Machine<W>, r: W, s: seq<byte>, width: nat)
    requires Linear(m) && Associative(m) && Neutral(m) && Undoes(m, width) && |s| <= width
    ensures Feed(m, r, s) == Steps(m, m.xor(r, Word(m, s)), 8 * |s|)
    decreases |s|
  {
    if s != [] {
      var x, rest := m.load(s[0]), Word(m, s[1..]);
      FeedAtOnce(m, Steps(m, m.xor(r, x), 8), s[1..], width);
      assert Steps(m, m.up(rest), 8) == rest;
      StepsLinear(m, m.xor(r, x), m.up(rest), 8);
      assert m.xor(m.xor(r, x), m.up(rest)) == m.xor(r, Word(m, s));
      StepsCompose(m, m.xor(r, Word(m, s)), 8, 8 * (|s| - 1));
    }
  }

  /** For words that `small` allows, one byte and the shifted word can be told apart again. */
  ghost predicate Joins<W(!new)>(m: Machine<W>, small: W -> bool) {
    forall a, x, b, y {:trigger m.xor(m.load(a), m.up(x)), m.xor(m.load(b), m.up(y))} ::
      small(x) && small(y) && m.xor(m.load(a), m.up(x)) == m.xor(m.load(b), m.up(y)) ==> a == b && x == y
  }

  lemma {:induction false} WordInjective<W(!new)>(m: Machine<W>, small: W -> bool, s: seq<byte>, t: seq<byte>,
      width: nat)
    requires Joins(m, small)
    requires forall u: seq<byte> {:trigger Word(m, u)} | |u| < width :: small(Word(m, u))
    requires |s| == |t| <= width && Word(m, s) == Word(m, t)
    ensures s == t
  {
    if s != [] {
      var a, x, b, y := s[0], Word(m, s[1..]), t[0], Word(m, t[1..]);
      assert small(x) && small(y);
      assert m.xor(m.load(a), m.up(x)) == m.xor(m.load(b), m.up(y));
      WordInjective(m, small, s[1..], t[1..], width);
      assert s == [s[0]] + s[1..] && t == [t[0]] + t[1..];
    }
  }

  lemma WordOfFour<W>(m: Machine<W>, a: byte, b: byte, c: byte, d: byte)
    ensures Word(m, [a, b, c, d])
         == m.xor(m.load(a), m.up(m.xor(m.load(b), m.up(m.xor(m.load(c), m.up(m.xor(m.load(d), m.up(m.zero))))))))
  {
    assert [a, b, c, d][1..] == [b, c, d] && [b, c, d][1..] == [c, d] && [c, d][1..] == [d] && [d][1..] == [];
    assert Word(m, [d]) == m.xor(m.load(d), m.up(m.zero));
    assert Word(m, [c, d]) == m.xor(m.load(c), m.up(Word(m, [d])));
    assert Word(m, [b, c, d]) == m.xor(m.load(b), m.up(Word(m, [c, d])));
  }

  /** Messages that differ only within one register width leave different registers. */
  lemma BurstsDiffer<W(!new)>(m: Machine<W>, r: W, before: seq<byte>, w: seq<byte>, w': seq<byte>, after: seq<byte>,
                              width: nat)
    requires Lawful(m, width)
    requires |w| == |w'| <= width && w != w'
    requires Word(m, w) == Word(m, w') ==> w == w'
    ensures Feed(m, r, before + w + after) != Feed(m, r, before + w' + after)
  {
    var start := Feed(m, r, before);
    FeedConcat(m, r, before, w);
    FeedConcat(m, r, before + w, after);
    FeedConcat(m, r, before, w');
    FeedConcat(m, r, before + w', after);
    if Feed(m, r, before + w + after) == Feed(m, r, before + w' + after) {
      FeedInjective(m, Feed(m, start, w), Feed(m, start, w'), after);
      FeedAtOnce(m, start, w, width);
      FeedAtOnce(m, start, w', width);
      StepsInjective(m, m.xor(start, Word(m, w)), m.xor(start, Word(m, w')), 8 * |w|);
    }
  }

  /** A register that is fed itself ends at zero, and no other word of its width brings it there. */
  lemma ResidueIff<W(!new)>(m: Machine<W>, r: W, s: seq<byte>, width: nat)
    requires Lawful(m, width) && |s| <= width
    requires m.xor(r, r) == m.zero && m.step(m.zero) == m.zero
    ensures Feed(m, r, s) == m.zero <==> Word(m, s) == r
  {
    FeedAtOnce(m, r, s, width);
    StepsOfZero(m, 8 * |s|);
    if Feed(m, r, s) == m.zero {
      StepsInjective(m, m.xor(r, Word(m, s)), m.xor(r, r), 8 * |s|);
    }
  }

  lemma {:induction false} StepsOfZero<W>(m: Machine<W>, n: nat)
    requires m.step(m.zero) == m.zero
    ensures Steps(m, m.zero, n) == m.zero
  {
    if n != 0 {
      StepsOfZero(m, n - 1);
    }
  }
}
