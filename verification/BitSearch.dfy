/**
 The word-at-a-time bit search and the CPU-mask iteration built on it.
 */
module BitSearch {

  const BITS_PER_LONG := 64
  const MAX_CPU_NUMBERS := 512

  /** A machine word as the set of its one bits. */
  type Word = w: set<nat> | forall b | b in w :: b < BITS_PER_LONG witness {}

  const NO_BITS: Word := {}
  const ALL_BITS: Word := set b | 0 <= b < BITS_PER_LONG

  function Xor(a: Word, b: Word): Word {
    (a - b) + (b - a)
  }

  /** BITMAP_FIRST_WORD_MASK: the bits from start on, within its word. */
  function FirstWordMask(start: nat): Word {
    set b | b in ALL_BITS && start % BITS_PER_LONG <= b
  }

  /** What the search looks for: bit i of the map, complemented where invert has a one. */
  predicate Hit(words: seq<Word>, invert: Word, i: nat) {
    && i / BITS_PER_LONG < |words|
    && (i % BITS_PER_LONG in words[i / BITS_PER_LONG]) != (i % BITS_PER_LONG in invert)
  }

  /** __ffs: the lowest one bit. */
  method Ffs(w: Word) returns (b: nat)
    requires w != {}
    ensures b in w && forall c | c in w :: b <= c
  {
    b := 0;
    while b !in w
      invariant b < BITS_PER_LONG && forall c | c in w :: b <= c
      decreases BITS_PER_LONG - b
    {
      var c :| c in w;
      b := b + 1;
    }
  }

  /** Bit b of word k is bit 64 * k + b of the map. */
  lemma HitInWord(words: seq<Word>, invert: Word, k: nat, b: nat)
    requires k < |words| && b < BITS_PER_LONG
    ensures Hit(words, invert, BITS_PER_LONG * k + b) <==> b in Xor(words[k], invert)
  {
  }

  /** tmp is word k of the search, without the bits before start. */
  ghost predicate Fetched(tmp: Word, words: seq<Word>, invert: Word, start: nat, k: nat) {
    forall b | 0 <= b < BITS_PER_LONG ::
      b in tmp <==> start <= BITS_PER_LONG * k + b && Hit(words, invert, BITS_PER_LONG * k + b)
  }

  ghost predicate NoHit(words: seq<Word>, invert: Word, start: nat, end: nat) {
    forall i | start <= i < end :: !Hit(words, invert, i)
  }

  lemma FetchFirst(words: seq<Word>, invert: Word, start: nat)
    requires start / BITS_PER_LONG < |words|
    ensures var k := start / BITS_PER_LONG;
            Fetched(Xor(words[k], invert) * FirstWordMask(start), words, invert, start, k)
  {
    var k := start / BITS_PER_LONG;
    forall b | 0 <= b < BITS_PER_LONG
      ensures b in Xor(words[k], invert) * FirstWordMask(start)
              <==> start <= BITS_PER_LONG * k + b && Hit(words, invert, BITS_PER_LONG * k + b)
    {
      HitInWord(words, invert, k, b);
    }
  }

  lemma FetchNext(words: seq<Word>, invert: Word, start: nat, k: nat)
    requires k < |words| && start <= BITS_PER_LONG * k
    ensures Fetched(Xor(words[k], invert), words, invert, start, k)
  {
    forall b | 0 <= b < BITS_PER_LONG
      ensures b in Xor(words[k], invert) <==> Hit(words, invert, BITS_PER_LONG * k + b)
    {
      HitInWord(words, invert, k, b);
    }
  }

  /** The search moves up to bit b of a word that has no lower one. */
  lemma Skip(tmp: Word, words: seq<Word>, invert: Word, start: nat, k: nat, b: nat)
    requires Fetched(tmp, words, invert, start, k) && NoHit(words, invert, start, BITS_PER_LONG * k)
    requires b <= BITS_PER_LONG && forall c | c in tmp :: b <= c
    ensures NoHit(words, invert, start, BITS_PER_LONG * k + b)
  {
    forall i | start <= i < BITS_PER_LONG * k + b
      ensures !Hit(words, invert, i)
    {
      if i >= BITS_PER_LONG * k {
        var c := i - BITS_PER_LONG * k;
        assert c !in tmp && BITS_PER_LONG * k + c == i;
      }
    }
  }

  /** _find_next_bit: the least hit in [start, nbits), or nbits. */
  method FindNextBit(addr: array<Word>, nbits: nat, start: nat, invert: Word) returns (r: nat)
    requires nbits <= BITS_PER_LONG * addr.Length
    ensures r <= nbits && (r < nbits ==> start <= r && Hit(addr[..], invert, r))
    ensures forall i | start <= i < r :: !Hit(addr[..], invert, i)
  {
    if nbits == 0 || start >= nbits {
      return nbits;
    }
    ghost var k := start / BITS_PER_LONG;
    var tmp := Xor(addr[start / BITS_PER_LONG], invert);
    tmp := tmp * FirstWordMask(start);
    FetchFirst(addr[..], invert, start);
    hide Hit, Xor, Fetched, FirstWordMask;
    var base := start / BITS_PER_LONG * BITS_PER_LONG;
    while tmp == {}
      invariant base == BITS_PER_LONG * k && base < nbits
      invariant Fetched(tmp, addr[..], invert, start, k) && NoHit(addr[..], invert, start, base)
      decreases nbits - base
    {
      Skip(tmp, addr[..], invert, start, k, BITS_PER_LONG);
      base := base + BITS_PER_LONG;
      k := k + 1;
      if base >= nbits {
        return nbits;
      }
      tmp := Xor(addr[base / BITS_PER_LONG], invert);
      FetchNext(addr[..], invert, start, k);
    }
    var b := Ffs(tmp);
    Skip(tmp, addr[..], invert, start, k, b);
    Found(tmp, addr[..], invert, start, k, b);
    r := if base + b < nbits then base + b else nbits;
  }

  lemma Found(tmp: Word, words: seq<Word>, invert: Word, start: nat, k: nat, b: nat)
    requires Fetched(tmp, words, invert, start, k) && b in tmp
    ensures start <= BITS_PER_LONG * k + b && Hit(words, invert, BITS_PER_LONG * k + b)
  {
  }

  /** find_first_bit. */
  method FindFirstBit(addr: array<Word>, size: nat) returns (r: nat)
    requires size <= BITS_PER_LONG * addr.Length
    ensures r <= size && (r < size ==> Hit(addr[..], NO_BITS, r))
    ensures forall i | 0 <= i < r :: !Hit(addr[..], NO_BITS, i)
  {
    var idx := 0;
    while idx * BITS_PER_LONG < size
      invariant forall i | 0 <= i < idx * BITS_PER_LONG :: !Hit(addr[..], NO_BITS, i)
      decreases size - idx * BITS_PER_LONG
    {
      if addr[idx] != {} {
        var b := Ffs(addr[idx]);
        r := if idx * BITS_PER_LONG + b < size then idx * BITS_PER_LONG + b else size;
        return;
      }
      idx := idx + 1;
    }
    return size;
  }

  /** The one bits of a CPU mask in increasing order. */
  predicate Enumerates(cpus: seq<nat>, words: seq<Word>, below: nat) {
    && (forall j, k | 0 <= j < k < |cpus| :: cpus[j] < cpus[k])
    && (forall j | 0 <= j < |cpus| :: cpus[j] < below && Hit(words, NO_BITS, cpus[j]))
    && (forall i | 0 <= i < below && Hit(words, NO_BITS, i) :: i in cpus)
  }

  /** for_each_cpu: the iteration starts at -1 and stops at the first result past the last CPU. */
  method ForEachCpu(mask: array<Word>) returns (cpus: seq<nat>)
    requires mask.Length * BITS_PER_LONG == MAX_CPU_NUMBERS
    ensures Enumerates(cpus, mask[..], MAX_CPU_NUMBERS)
  {
    cpus := [];
    var cpu: int := -1;
    cpu := FindNextBit(mask, MAX_CPU_NUMBERS, cpu + 1, NO_BITS);
    while cpu < MAX_CPU_NUMBERS
      invariant 0 <= cpu <= MAX_CPU_NUMBERS && Enumerates(cpus, mask[..], cpu)
      invariant cpu < MAX_CPU_NUMBERS ==> Hit(mask[..], NO_BITS, cpu)
      decreases MAX_CPU_NUMBERS - cpu
    {
      cpus := cpus + [cpu];
      cpu := FindNextBit(mask, MAX_CPU_NUMBERS, cpu + 1, NO_BITS);
    }
  }
}
