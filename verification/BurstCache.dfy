/** The packed burst cache words of both implementations, and cache expiry. */
module BurstCache {
  import opened Bitwise
  import opened BoreMath

  const GRAIN: nat := 0x1_0000
  const U48: nat := 0x1_0000_0000_0000

  // ----- Rust: timestamp in bits 63..16, penalty in bits 15..0

  function PackWord(stamp: u64, penalty: u16): int {
    Or(Shl64(stamp / GRAIN, 16), penalty)
  }

  function WordStamp(word: u64): u64 {
    Shl64(word / GRAIN, 16)
  }

  function WordPenalty(word: u64): u16 {
    word % U16
  }

  lemma GrainPower()
    ensures Pow2(16) == GRAIN
  {
    assert Pow2(8) == 0x100 by {
      Pow2Values();
    }
    Pow2Square(8, 0x100);
  }

  lemma ShlGrain(x: nat)
    requires x < U48
    ensures x * GRAIN < U64 && Shl64(x, 16) == x * GRAIN
  {
    GrainPower();
    ShlMul(x, 16);
  }

  lemma PackIsSum(stamp: u64, penalty: u16)
    ensures stamp / GRAIN < U48
    ensures PackWord(stamp, penalty) == stamp / GRAIN * GRAIN + penalty
  {
    hide Or, Shl64;
    ShlGrain(stamp / GRAIN);
    GrainPower();
    OrDisjoint(stamp / GRAIN, penalty, 16);
  }

  /** Packing is a round trip: the penalty exactly, the timestamp down to 65536 ns. */
  lemma WordRoundTrip(stamp: u64, penalty: u16)
    ensures 0 <= PackWord(stamp, penalty) < U64
    ensures WordPenalty(PackWord(stamp, penalty)) == penalty
    ensures WordStamp(PackWord(stamp, penalty)) == stamp - stamp % 65536
  {
    hide PackWord, Shl64;
    var t := stamp / GRAIN;
    PackIsSum(stamp, penalty);
    DivModUnique(PackWord(stamp, penalty), GRAIN, t, penalty);
    ShlGrain(t);
  }

  // ----- C: a bit-field with the 48-bit timestamp first, then the penalty

  datatype Cache = Cache(timestamp: nat, penalty: nat)

  predicate InFields(c: Cache) {
    c.timestamp < U48 && c.penalty < U16
  }

  /** What a `struct bore_bc` can hold. */
  type PackedCache = c: Cache | InFields(c) witness Cache(0, 0)

  function FieldWord(c: Cache): u64
    requires InFields(c)
  {
    c.timestamp + c.penalty * U48
  }

  function Fields(word: u64): Cache {
    Cache(word % U48, word / U48)
  }

  lemma FieldRoundTrip(c: Cache, word: u64)
    ensures InFields(c) ==> Fields(FieldWord(c)) == c
    ensures InFields(Fields(word)) && FieldWord(Fields(word)) == word
  {
  }

  /** Both layouts agree on a cache only if its timestamp repeats the penalty three times. */
  lemma LayoutsCoincideIff(stamp: u64, penalty: u16)
    ensures stamp / GRAIN < U48
    ensures PackWord(stamp, penalty) == FieldWord(Cache(stamp / GRAIN, penalty)) <==>
            stamp / GRAIN == penalty * 0x1_0001_0001
  {
    hide PackWord;
    PackIsSum(stamp, penalty);
  }

  // ----- expiry

  /** `now - stamp > lifetime` in wrapping u64 arithmetic. */
  predicate Expired(stampNs: u64, now: u64, lifetime: u64) {
    (now - stampNs) % U64 > lifetime
  }

  /**
   A cache stored at `t` expires at some time in (t + lifetime - 65536, t + lifetime]: its age
   is overestimated by the dropped low bits of the timestamp, never underestimated.
   */
  lemma ExpiryWindow(t: u64, penalty: u16, now: u64, lifetime: u64)
    requires t <= now
    ensures 0 <= PackWord(t, penalty) < U64
    ensures var expired := Expired(WordStamp(PackWord(t, penalty)), now, lifetime);
      && (expired <==> now - t > lifetime - t % 65536)
      && (now - t > lifetime ==> expired)
      && (now - t <= lifetime - 65535 ==> !expired)
  {
    hide PackWord, WordStamp;
    WordRoundTrip(t, penalty);
    SmallMod(now - (t - t % 65536), U64);
  }

  /** A clock behind the stored stamp reads as expired unless it is almost 2^64 ns behind. */
  lemma ClockBehindExpires(stampNs: u64, now: u64, lifetime: u64)
    requires now < stampNs
    ensures Expired(stampNs, now, lifetime) <==> stampNs - now < U64 - lifetime
  {
  }
}
