/** Runs of bitmap words and the sorted index lists read from them (`src/quote/dlmm.rs`, `src/pool/ticks.rs`). */
module Bitmaps {
  import opened Numbers

  // ── bits of a word ──────────────────────────────────────────────────────

  predicate Bit(word: nat, i: nat) {
    if i == 0 then word % 2 == 1 else Bit(word / 2, i - 1)
  }

  function TrailingZeros(word: nat): (b: nat)
    requires word > 0
    ensures TwoTo(b) <= word
  {
    if word % 2 == 1 then 0 else 1 + TrailingZeros(word / 2)
  }

  /** `bits & (bits - 1)`: the word without its lowest set bit. */
  function ClearLowest(word: nat): (r: nat)
    requires word > 0
    ensures r < word
  {
    word - TwoTo(TrailingZeros(word))
  }

  lemma {:induction false} LowestBit(word: nat, i: nat)
    requires word > 0
    ensures Bit(word, TrailingZeros(word))
    ensures i < TrailingZeros(word) ==> !Bit(word, i)
    ensures Bit(ClearLowest(word), i) <==> Bit(word, i) && i != TrailingZeros(word)
  {
    if word % 2 == 0 {
      LowestBit(word / 2, if i == 0 then 0 else i - 1);
      assert ClearLowest(word) == 2 * ClearLowest(word / 2);
    } else if i > 0 {
      assert ClearLowest(word) / 2 == word / 2;
    }
  }

  lemma {:induction false} BitIsBounded(word: nat, i: nat)
    requires Bit(word, i)
    ensures TwoTo(i) <= word
  {
    if i > 0 {
      BitIsBounded(word / 2, i - 1);
    }
  }

  lemma ZeroHasNoBits(i: nat)
    ensures !Bit(0, i)
  {
  }

  lemma {:induction false} TwoToRises(i: nat, j: nat)
    requires i <= j
    ensures TwoTo(i) <= TwoTo(j)
    decreases j - i
  {
    if i < j {
      TwoToRises(i, j - 1);
    }
  }

  lemma WordBits(word: u64, i: nat)
    requires Bit(word, i)
    ensures i < 64
  {
    BitIsBounded(word, i);
    WordSizes();
    if 64 <= i {
      TwoToRises(64, i);
    }
  }

  // ── runs of words ───────────────────────────────────────────────────────

  /** Bit `k` of a run of words. */
  predicate Marked(words: seq<u64>, k: int) {
    0 <= k < 64 * |words| && Bit(words[k / 64], k % 64)
  }

  lemma HalvedQuotient(word: nat, p: nat)
    requires 0 < p
    ensures word / 2 / p == word / (2 * p)
  {
    var q := word / (2 * p);
    FloorIff(word, 2 * p, q);
    FloorIff(word, 2 * p, q + 1);
    Doubled(q, p);
    Doubled(q + 1, p);
    FloorIff(word / 2, p, q);
    FloorIff(word / 2, p, q + 1);
    assert q * (2 * p) == 2 * (q * p) && (q + 1) * (2 * p) == 2 * ((q + 1) * p);
  }

  /** A bit is the word shifted right, odd. */
  lemma {:induction false} BitIsDigit(word: nat, i: nat)
    ensures Bit(word, i) <==> word / TwoTo(i) % 2 == 1
  {
    if i > 0 {
      BitIsDigit(word / 2, i - 1);
      HalvedQuotient(word, TwoTo(i - 1));
    }
  }

  /** Bit `k` of a run of words, by shifting the word that holds it. */
  predicate Set(words: seq<u64>, k: int) {
    0 <= k < 64 * |words| && words[k / 64] / TwoTo(k % 64) % 2 == 1
  }

  lemma MarkedIsSet(words: seq<u64>, k: int)
    ensures Marked(words, k) <==> Set(words, k)
  {
    if 0 <= k < 64 * |words| {
      BitIsDigit(words[k / 64], k % 64);
    }
  }

  lemma MarkedInRange(words: seq<u64>, k: int)
    ensures Marked(words, k) ==> 0 <= k < 64 * |words|
  {
  }

  lemma MarkedSplit(words: seq<u64>, k: int)
    requires |words| > 0
    ensures Marked(words, k) <==> (k >= 0 && Bit(words[0], k)) || Marked(words[1..], k - 64)
    ensures k >= 0 && Bit(words[0], k) ==> k < 64
  {
    if k >= 0 && Bit(words[0], k) {
      WordBits(words[0], k);
    }
    if 64 <= k < 64 * |words| {
      assert words[1..][(k - 64) / 64] == words[k / 64];
    }
  }

  // ── sorted lists ────────────────────────────────────────────────────────

  predicate Before(x: int, y: int, up: bool) {
    if up then x < y else y < x
  }

  /** Strictly rising or falling. */
  predicate Ordered(s: seq<int>, up: bool) {
    forall i, j | 0 <= i < j < |s| :: Before(s[i], s[j], up)
  }

  predicate Distinct(s: seq<int>) {
    forall i, j | 0 <= i < j < |s| :: s[i] != s[j]
  }

  /** Insertion into a rising sequence: `sort_unstable` on integers. */
  function Insert(x: int, s: seq<int>): seq<int> {
    if |s| == 0 || x <= s[0] then [x] + s else [s[0]] + Insert(x, s[1..])
  }

  function Sort(s: seq<int>): seq<int> {
    if |s| == 0 then [] else Insert(s[0], Sort(s[1..]))
  }

  /** `dedup`: one of each run of equal neighbours. */
  function Dedup(s: seq<int>): seq<int> {
    if |s| < 2 then s
    else if s[0] == s[1] then Dedup(s[1..])
    else [s[0]] + Dedup(s[1..])
  }

  lemma {:induction false} InsertIsExact(x: int, s: seq<int>)
    requires Ordered(s, true) && x !in s
    ensures Ordered(Insert(x, s), true)
    ensures forall y :: y in Insert(x, s) <==> y == x || y in s
  {
    if |s| > 0 && s[0] < x {
      InsertIsExact(x, s[1..]);
      var rest := Insert(x, s[1..]);
      forall j | 0 <= j < |rest|
        ensures s[0] < rest[j]
      {
        assert rest[j] in rest;
      }
    }
  }

  lemma {:induction false} SortIsExact(s: seq<int>)
    requires Distinct(s)
    ensures Ordered(Sort(s), true)
    ensures forall y :: y in Sort(s) <==> y in s
  {
    if |s| > 0 {
      SortIsExact(s[1..]);
      InsertIsExact(s[0], Sort(s[1..]));
    }
  }

  predicate Rising(s: seq<int>) {
    forall i, j | 0 <= i < j < |s| :: s[i] <= s[j]
  }

  lemma {:induction false} InsertRises(x: int, s: seq<int>)
    requires Rising(s)
    ensures Rising(Insert(x, s)) && |Insert(x, s)| == |s| + 1
    ensures forall y :: y in Insert(x, s) <==> y == x || y in s
  {
    if |s| > 0 && s[0] < x {
      var rest := Insert(x, s[1..]);
      InsertRises(x, s[1..]);
      forall j | 0 <= j < |rest| ensures s[0] <= rest[j] {
        assert rest[j] in rest;
      }
    }
  }

  lemma {:induction false} SortRises(s: seq<int>)
    ensures Rising(Sort(s)) && |Sort(s)| == |s|
    ensures forall y :: y in Sort(s) <==> y in s
  {
    if |s| > 0 {
      SortRises(s[1..]);
      InsertRises(s[0], Sort(s[1..]));
    }
  }

  /** Once sorted, what `dedup` leaves is strictly ascending. */
  lemma {:induction false} DedupIsStrict(s: seq<int>)
    requires Rising(s)
    ensures Ordered(Dedup(s), true) && |Dedup(s)| <= |s|
    ensures forall y :: y in Dedup(s) <==> y in s
  {
    if |s| >= 2 {
      DedupIsStrict(s[1..]);
      var rest := Dedup(s[1..]);
      assert s == [s[0]] + s[1..];
      if s[0] != s[1] {
        forall j | 0 <= j < |rest| ensures s[0] < rest[j] {
          var y := rest[j];
          assert y in Dedup(s[1..]);
          assert y in s[1..];
        }
      }
    }
  }
}
