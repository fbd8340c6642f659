/** Matching brightness values to characters
    (image_char_matching/SubImgCharMatcher.java).

    A character is a UTF-16 code unit. Its brightness is the fraction of
    lit cells in its 16 x 16 glyph; the glyphs come from a font renderer
    that is not part of this model and is given as the function `glyph`.
    The matcher keeps one bucket of characters per brightness, stretches
    the bucket brightnesses linearly onto [0, 1] and answers a query with
    the smallest character of the bucket whose stretched brightness is
    nearest to the query, the lower one on a tie. */
module CharMatching {
  import opened Basics
  import opened JavaText

  /** A 16 x 16 grid of lit / unlit cells. */
  type Glyph = g: seq<seq<bool>> | |g| == 16 && forall i :: 0 <= i < |g| ==> |g[i]| == 16
    witness seq(16, _ => seq(16, _ => false))

  // ---------------------------------------------------------------------
  // Brightness of a character

  function RowOn(row: seq<bool>): (n: nat)
    ensures n <= |row|
  {
    if row == [] then 0 else RowOn(row[..|row| - 1]) + (if row[|row| - 1] then 1 else 0)
  }

  function CellsOn(rows: seq<seq<bool>>): nat {
    if rows == [] then 0 else CellsOn(rows[..|rows| - 1]) + RowOn(rows[|rows| - 1])
  }

  lemma {:induction false} CellsOnBound(rows: seq<seq<bool>>, width: nat)
    requires forall i :: 0 <= i < |rows| ==> |rows[i]| == width
    ensures CellsOn(rows) <= |rows| * width
  {
    if rows != [] {
      CellsOnBound(rows[..|rows| - 1], width);
      assert (|rows| - 1) * width + width == |rows| * width;
    }
  }

  /** The fraction of lit cells of a glyph, in [0, 1]. */
  function Luma(g: Glyph): (b: real)
    ensures 0.0 <= b <= 1.0
  {
    CellsOnBound(g, 16);
    CellsOn(g) as real / 256.0
  }

  // ---------------------------------------------------------------------
  // Buckets
  //
  // The bucket algebra is stated for any brightness function `luma`; the
  // matcher instantiates it with the glyph brightness of each character.

  /** The brightness of each character under the glyphs `glyph`. */
  function LumaOf(glyph: Code -> Glyph): (luma: Code -> real)
    ensures forall c :: luma(c) == Luma(glyph(c))
  {
    (c: Code) => Luma(glyph(c))
  }

  /** The brightnesses that occur among the characters. */
  function Lumas(chars: set<Code>, luma: Code -> real): set<real> {
    set c | c in chars :: luma(c)
  }

  /** The characters of brightness k. */
  function Bucket(chars: set<Code>, luma: Code -> real, k: real): set<Code> {
    set c | c in chars && luma(c) == k
  }

  /** The characters grouped by brightness: the content the matcher's
      brightness map must have for the characters it holds. */
  function Buckets(chars: set<Code>, luma: Code -> real): map<real, set<Code>> {
    map k | k in Lumas(chars, luma) :: Bucket(chars, luma, k)
  }

  /** Each held character sits in the bucket of its brightness, no bucket is
      empty, and a bucket holds only held characters of its brightness. */
  lemma BucketsShape(chars: set<Code>, luma: Code -> real)
    ensures var b := Buckets(chars, luma);
            b.Keys == Lumas(chars, luma) &&
            (forall c :: c in chars ==> luma(c) in b && c in b[luma(c)]) &&
            NoEmptyBucket(b) &&
            (forall k :: k in b ==> forall c :: c in b[k] ==> c in chars && luma(c) == k)
  {
    var b := Buckets(chars, luma);
    forall k | k in b ensures b[k] != {} {
      var c :| c in chars && luma(c) == k;
      assert c in b[k];
    }
  }

  /** No bucket of the map is empty. */
  predicate NoEmptyBucket(b: map<real, set<Code>>) {
    forall k :: k in b ==> b[k] != {}
  }

  /** A bucket map with `c` added to the bucket of brightness `key`. */
  function AddToBucket(b: map<real, set<Code>>, key: real, c: Code): map<real, set<Code>> {
    b[key := (if key in b then b[key] else {}) + {c}]
  }

  /** A bucket map with `c` taken out of the bucket of brightness `key`;
      a bucket left empty disappears. */
  function RemoveFromBucket(b: map<real, set<Code>>, key: real, c: Code): map<real, set<Code>> {
    if key !in b then b
    else if b[key] - {c} == {} then b - {key}
    else b[key := b[key] - {c}]
  }

  /** Adding a character to the buckets of a set is the buckets of the
      larger set. */
  lemma BucketsAdd(chars: set<Code>, c: Code, luma: Code -> real)
    ensures Buckets(chars + {c}, luma) == AddToBucket(Buckets(chars, luma), luma(c), c)
  {
    var key := luma(c);
    var before := Buckets(chars, luma);
    var lhs := Buckets(chars + {c}, luma);
    var rhs := AddToBucket(before, key, c);
    assert Lumas(chars + {c}, luma) == Lumas(chars, luma) + {key};
    forall k | k in lhs ensures lhs[k] == rhs[k] {
      if k == key {
        assert Bucket(chars + {c}, luma, k) == Bucket(chars, luma, k) + {c};
        if key !in before {
          assert Bucket(chars, luma, k) == {};
        }
      } else {
        assert Bucket(chars + {c}, luma, k) == Bucket(chars, luma, k);
      }
    }
  }

  /** Removing a held character from the buckets of a set is the buckets of
      the smaller set. */
  lemma BucketsRemove(chars: set<Code>, c: Code, luma: Code -> real)
    requires c in chars
    ensures Buckets(chars - {c}, luma) == RemoveFromBucket(Buckets(chars, luma), luma(c), c)
  {
    var key := luma(c);
    var before := Buckets(chars, luma);
    var lhs := Buckets(chars - {c}, luma);
    var rhs := RemoveFromBucket(before, key, c);
    assert key in before;
    assert Bucket(chars - {c}, luma, key) == before[key] - {c};
    forall k | k != key ensures Bucket(chars - {c}, luma, k) == Bucket(chars, luma, k) {
    }
    forall k ensures k in lhs <==> k in rhs {
      if k in lhs && k != key {
        var d :| d in chars - {c} && luma(d) == k;
        assert d in Bucket(chars, luma, k);
      }
      if k in rhs && k != key {
        var d :| d in rhs[k];
        assert d in Bucket(chars - {c}, luma, k);
      }
      if k == key && before[key] - {c} != {} {
        var d :| d in before[key] - {c};
        assert d in chars - {c};
      }
    }
  }

  /** Adding a character and removing it again restores the buckets. */
  lemma AddRemoveRoundTrip(chars: set<Code>, c: Code, luma: Code -> real)
    requires c !in chars
    ensures RemoveFromBucket(AddToBucket(Buckets(chars, luma), luma(c), c), luma(c), c) == Buckets(chars, luma)
  {
    BucketsAdd(chars, c, luma);
    BucketsRemove(chars + {c}, c, luma);
    assert chars + {c} - {c} == chars;
  }

  /** Adding a character that is already held changes nothing. */
  lemma AddPresentIsNoOp(chars: set<Code>, c: Code, luma: Code -> real)
    requires c in chars
    ensures AddToBucket(Buckets(chars, luma), luma(c), c) == Buckets(chars, luma)
  {
    BucketsAdd(chars, c, luma);
    assert chars + {c} == chars;
  }

  // ---------------------------------------------------------------------
  // Stretching onto [0, 1]

  /** Where brightness k lands when [lo, hi] is stretched onto [0, 1]. The
      source divides 0 by 0 when lo == hi; that case is the subject of
      MatchAsWritten below, and here it lands on 0. */
  function NormKey(k: real, lo: real, hi: real): real {
    if lo == hi then 0.0 else (k - lo) / (hi - lo)
  }

  /** The brightness in [lo, hi] that stretches to x. */
  function DeNorm(x: real, lo: real, hi: real): real {
    lo + x * (hi - lo)
  }

  lemma RealScaleSign(a: real, d: real)
    requires d > 0.0
    ensures a > 0.0 <==> a * d > 0.0
    ensures a == 0.0 <==> a * d == 0.0
  {
  }

  /** Stretching preserves and reflects the order of brightnesses, maps
      [lo, hi] onto [0, 1] with lo at 0 and hi at 1, and DeNorm undoes it. */
  lemma NormKeyOrder(k1: real, k2: real, lo: real, hi: real)
    requires lo < hi
    ensures k1 < k2 <==> NormKey(k1, lo, hi) < NormKey(k2, lo, hi)
    ensures k1 == k2 <==> NormKey(k1, lo, hi) == NormKey(k2, lo, hi)
    ensures lo <= k1 <= hi ==> 0.0 <= NormKey(k1, lo, hi) <= 1.0
    ensures NormKey(lo, lo, hi) == 0.0 && NormKey(hi, lo, hi) == 1.0
    ensures DeNorm(NormKey(k1, lo, hi), lo, hi) == k1
  {
    var d := hi - lo;
    assert NormKey(hi, lo, hi) == d / d == 1.0;
    var x, y := NormKey(k1, lo, hi), NormKey(k2, lo, hi);
    assert x * d == k1 - lo;
    assert y * d == k2 - lo;
    assert (y - x) * d == k2 - k1;
    RealScaleSign(y - x, d);
    assert (1.0 - x) * d == hi - k1;
    RealScaleSign(x, d);
    RealScaleSign(1.0 - x, d);
  }

  /** Within [lo, hi], DeNorm undoes stretching; so distinct brightnesses
      stretch to distinct values. */
  lemma NormKeyInverse(lo: real, hi: real)
    ensures forall k :: lo <= k <= hi ==> DeNorm(NormKey(k, lo, hi), lo, hi) == k
  {
    forall k | lo <= k <= hi ensures DeNorm(NormKey(k, lo, hi), lo, hi) == k {
      if lo < hi { NormKeyOrder(k, k, lo, hi); }
    }
  }

  /** The stretched map restricted to the brightnesses `keys`: the
      stretched brightness of each bucket leads to its smallest character. */
  function StretchOn(b: map<real, set<Code>>, keys: set<real>, lo: real, hi: real): (s: map<real, Code>)
    requires keys <= b.Keys
    requires NoEmptyBucket(b)
    requires forall k :: k in keys ==> lo <= k <= hi
  {
    NormKeyInverse(lo, hi);
    map k | k in keys :: NormKey(k, lo, hi) := MinOf(b[k]) as Code
  }

  /** The stretched map the source rebuilds on demand. */
  function Stretch(b: map<real, set<Code>>): map<real, Code>
    requires b.Keys != {}
    requires NoEmptyBucket(b)
  {
    StretchOn(b, b.Keys, MinReal(b.Keys), MaxReal(b.Keys))
  }

  /** The stretched map has a key as soon as there is a bucket. */
  lemma StretchNonEmpty(b: map<real, set<Code>>)
    requires b.Keys != {}
    requires NoEmptyBucket(b)
    ensures Stretch(b).Keys != {}
  {
    var lo := MinReal(b.Keys);
    assert NormKey(lo, lo, MaxReal(b.Keys)) in Stretch(b);
  }

  lemma StretchOnInsert(b: map<real, set<Code>>, keys: set<real>, k: real, lo: real, hi: real)
    requires keys <= b.Keys && k in b && k !in keys
    requires NoEmptyBucket(b)
    requires forall x :: x in keys + {k} ==> lo <= x <= hi
    ensures StretchOn(b, keys + {k}, lo, hi) ==
            StretchOn(b, keys, lo, hi)[NormKey(k, lo, hi) := MinOf(b[k]) as Code]
  {
    var lhs := StretchOn(b, keys + {k}, lo, hi);
    var rhs := StretchOn(b, keys, lo, hi)[NormKey(k, lo, hi) := MinOf(b[k]) as Code];
    NormKeyInverse(lo, hi);
    assert lhs.Keys == rhs.Keys;
  }

  /** Every bucket appears in the stretched map under its stretched
      brightness, with its smallest character; every stretched brightness
      comes back to a bucket under DeNorm and lies in [0, 1]; 0 is always
      present and 1 is present once there are two buckets. */
  lemma StretchFacts(b: map<real, set<Code>>)
    requires b.Keys != {}
    requires NoEmptyBucket(b)
    ensures var lo := MinReal(b.Keys);
            var hi := MaxReal(b.Keys);
            var s := Stretch(b);
            (forall k :: k in b ==> NormKey(k, lo, hi) in s && s[NormKey(k, lo, hi)] == MinOf(b[k])) &&
            (forall x :: x in s ==> DeNorm(x, lo, hi) in b && NormKey(DeNorm(x, lo, hi), lo, hi) == x) &&
            (forall x :: x in s ==> 0.0 <= x <= 1.0) &&
            0.0 in s && (lo < hi ==> 1.0 in s)
  {
    var lo := MinReal(b.Keys);
    var hi := MaxReal(b.Keys);
    var s := Stretch(b);
    NormKeyInverse(lo, hi);
    forall k | k in b ensures NormKey(k, lo, hi) in s && s[NormKey(k, lo, hi)] == MinOf(b[k]) {
    }
    forall x | x in s ensures DeNorm(x, lo, hi) in b && NormKey(DeNorm(x, lo, hi), lo, hi) == x && 0.0 <= x <= 1.0 {
      var k :| k in b && x == NormKey(k, lo, hi);
      if lo < hi { NormKeyOrder(k, k, lo, hi); }
    }
    assert NormKey(lo, lo, hi) in s;
    if lo < hi {
      NormKeyOrder(lo, hi, lo, hi);
      assert NormKey(hi, lo, hi) in s;
    }
  }

  // ---------------------------------------------------------------------
  // Nearest key

  function Dist(a: real, b: real): real {
    if a >= b then a - b else b - a
  }

  /** The keys not above q. */
  function Below(s: map<real, Code>, q: real): set<real> {
    set k | k in s && k <= q
  }

  /** The keys not below q. */
  function Above(s: map<real, Code>, q: real): set<real> {
    set k | k in s && k >= q
  }

  lemma SplitIsNonEmpty(s: map<real, Code>, q: real)
    requires s.Keys != {}
    ensures Below(s, q) != {} || Above(s, q) != {}
  {
    var k := Pick(s.Keys);
    if k <= q {
      assert k in Below(s, q);
    } else {
      assert k in Above(s, q);
    }
  }

  /** The key of `s` nearest to q: the greatest key not above q (its floor)
      or the least key not below q (its ceiling), the floor on a tie. A
      missing side leaves the other. */
  function ClosestKey(s: map<real, Code>, q: real): (r: real)
    requires s.Keys != {}
    ensures r in s
  {
    var below := Below(s, q);
    var above := Above(s, q);
    SplitIsNonEmpty(s, q);
    if below == {} then MinReal(above)
    else if above == {} then MaxReal(below)
    else
      var floor := MaxReal(below);
      var ceiling := MinReal(above);
      if q - floor <= ceiling - q then floor else ceiling
  }

  /** No key is nearer to q than ClosestKey, and a key as near is not
      below it. */
  lemma ClosestKeyIsNearest(s: map<real, Code>, q: real)
    requires s.Keys != {}
    ensures forall k :: k in s ==>
      Dist(ClosestKey(s, q), q) < Dist(k, q) ||
      (Dist(ClosestKey(s, q), q) == Dist(k, q) && ClosestKey(s, q) <= k)
  {
    var below := Below(s, q);
    var above := Above(s, q);
    var r := ClosestKey(s, q);
    forall k | k in s
      ensures Dist(r, q) < Dist(k, q) || (Dist(r, q) == Dist(k, q) && r <= k)
    {
      if k <= q {
        assert k in below;
      }
      if k >= q {
        assert k in above;
      }
    }
  }

  /** The character stored under the key nearest to q. */
  function Closest(s: map<real, Code>, q: real): Code
    requires s.Keys != {}
  {
    s[ClosestKey(s, q)]
  }

  /** The nearest key does not move down when the query moves up. */
  lemma ClosestKeyMonotonic(s: map<real, Code>, q1: real, q2: real)
    requires s.Keys != {} && q1 <= q2
    ensures ClosestKey(s, q1) <= ClosestKey(s, q2)
  {
    var r1 := ClosestKey(s, q1);
    var r2 := ClosestKey(s, q2);
    ClosestKeyIsNearest(s, q1);
    ClosestKeyIsNearest(s, q2);
    assert Dist(r1, q1) < Dist(r2, q1) || (Dist(r1, q1) == Dist(r2, q1) && r1 <= r2);
    assert Dist(r2, q2) < Dist(r1, q2) || (Dist(r2, q2) == Dist(r1, q2) && r2 <= r1);
  }

  /** The character answered for brightness q by a matcher whose buckets
      are b (getCharByImageBrightness). */
  function Match(b: map<real, set<Code>>, q: real): Code
    requires b.Keys != {}
    requires NoEmptyBucket(b)
  {
    StretchNonEmpty(b);
    Closest(Stretch(b), q)
  }

  /** The brightness of the bucket Match answers from. */
  function MatchedKey(b: map<real, set<Code>>, q: real): (k: real)
    requires b.Keys != {}
    requires NoEmptyBucket(b)
    ensures k in b
  {
    StretchFacts(b);
    DeNorm(ClosestKey(Stretch(b), q), MinReal(b.Keys), MaxReal(b.Keys))
  }

  /** The answer is the smallest character of the bucket whose stretched
      brightness is nearest to q, the lower bucket on a tie. */
  lemma MatchIsNearestBucket(b: map<real, set<Code>>, q: real)
    requires b.Keys != {}
    requires NoEmptyBucket(b)
    ensures var lo := MinReal(b.Keys);
            var hi := MaxReal(b.Keys);
            var k := MatchedKey(b, q);
            Match(b, q) == MinOf(b[k]) &&
            forall j :: j in b ==>
              Dist(NormKey(k, lo, hi), q) < Dist(NormKey(j, lo, hi), q) ||
              (Dist(NormKey(k, lo, hi), q) == Dist(NormKey(j, lo, hi), q) && k <= j)
  {
    var lo := MinReal(b.Keys);
    var hi := MaxReal(b.Keys);
    var s := Stretch(b);
    StretchFacts(b);
    ClosestKeyIsNearest(s, q);
    var k := MatchedKey(b, q);
    forall j | j in b
      ensures Dist(NormKey(k, lo, hi), q) < Dist(NormKey(j, lo, hi), q) ||
              (Dist(NormKey(k, lo, hi), q) == Dist(NormKey(j, lo, hi), q) && k <= j)
    {
      assert NormKey(j, lo, hi) in s;
      if lo < hi { NormKeyOrder(k, j, lo, hi); }
    }
  }

  /** The answer for the characters `chars` is one of them, and its
      brightness is that of the bucket it came from. */
  lemma MatchInCharset(chars: set<Code>, luma: Code -> real, q: real)
    requires chars != {}
    ensures Buckets(chars, luma).Keys != {} && NoEmptyBucket(Buckets(chars, luma))
    ensures Match(Buckets(chars, luma), q) in chars
    ensures luma(Match(Buckets(chars, luma), q)) == MatchedKey(Buckets(chars, luma), q)
  {
    var b := Buckets(chars, luma);
    BucketsShape(chars, luma);
    var c := Pick(chars);
    assert luma(c) in b.Keys;
    MatchIsNearestBucket(b, q);
  }

  /** A brighter query never yields a dimmer character. */
  lemma MatchMonotonic(chars: set<Code>, luma: Code -> real, q1: real, q2: real)
    requires chars != {} && q1 <= q2
    ensures Buckets(chars, luma).Keys != {} && NoEmptyBucket(Buckets(chars, luma))
    ensures luma(Match(Buckets(chars, luma), q1)) <= luma(Match(Buckets(chars, luma), q2))
  {
    var b := Buckets(chars, luma);
    MatchInCharset(chars, luma, q1);
    MatchInCharset(chars, luma, q2);
    var lo := MinReal(b.Keys);
    var hi := MaxReal(b.Keys);
    var s := Stretch(b);
    StretchFacts(b);
    ClosestKeyMonotonic(s, q1, q2);
    var k1 := MatchedKey(b, q1);
    var k2 := MatchedKey(b, q2);
    if lo < hi { NormKeyOrder(k1, k2, lo, hi); }
  }

  // ---------------------------------------------------------------------
  // The lookup as written

  /** getCharByImageBrightness as written; None where it throws. With a
      single brightness the stretch divides 0 by 0 and stores the
      character under NaN, which a TreeMap orders above every number, so
      floorEntry finds nothing and reading its key throws; a query outside
      the stretched range also leaves floorEntry or ceilingEntry empty. */
  function MatchAsWritten(b: map<real, set<Code>>, q: real): Option<Code>
    requires b.Keys != {}
    requires NoEmptyBucket(b)
  {
    var lo := MinReal(b.Keys);
    var hi := MaxReal(b.Keys);
    if lo == hi then None
    else
      var s := Stretch(b);
      var below := Below(s, q);
      var above := Above(s, q);
      if below == {} || above == {} then None
      else
        var floor := MaxReal(below);
        var ceiling := MinReal(above);
        if q - floor <= ceiling - q then Some(s[floor]) else Some(s[ceiling])
  }

  /** With two or more brightnesses and a query in [0, 1] the lookup as
      written answers what Match does. */
  lemma MatchAsWrittenAgrees(b: map<real, set<Code>>, q: real)
    requires b.Keys != {}
    requires NoEmptyBucket(b)
    requires MinReal(b.Keys) < MaxReal(b.Keys)
    requires 0.0 <= q <= 1.0
    ensures MatchAsWritten(b, q) == Some(Match(b, q))
  {
    StretchFacts(b);
    var s := Stretch(b);
    assert 0.0 in Below(s, q);
    assert 1.0 in Above(s, q);
  }

  /** A charset of one character makes the lookup as written throw for
      every query, while Match answers that character. */
  lemma SingleCharacterLookupFails(c: Code, luma: Code -> real, q: real)
    ensures Buckets({c}, luma).Keys == {luma(c)} && NoEmptyBucket(Buckets({c}, luma))
    ensures MatchAsWritten(Buckets({c}, luma), q) == None
    ensures Match(Buckets({c}, luma), q) == c
  {
    assert Lumas({c}, luma) == {luma(c)};
    BucketsShape({c}, luma);
    MatchInCharset({c}, luma, q);
  }

  // ---------------------------------------------------------------------
  // The printed charset

  /** The characters in ascending order. */
  function Ascending(chars: set<Code>): (xs: seq<Code>)
    ensures |xs| == |chars|
    decreases |chars|
  {
    if chars == {} then []
    else
      var c := MinOf(chars) as Code;
      [c] + Ascending(chars - {c})
  }

  /** Ascending lists exactly the characters of the set. */
  lemma {:induction false} AscendingMembers(chars: set<Code>)
    ensures forall c :: c in chars <==> c in Ascending(chars)
    decreases |chars|
  {
    if chars != {} {
      var c := MinOf(chars) as Code;
      AscendingMembers(chars - {c});
      assert Ascending(chars) == [c] + Ascending(chars - {c});
    }
  }

  /** Ascending lists the characters in strictly ascending order, so each
      appears once. */
  lemma {:induction false} AscendingSorted(chars: set<Code>)
    ensures forall i, j :: 0 <= i < j < |Ascending(chars)| ==> Ascending(chars)[i] < Ascending(chars)[j]
    decreases |chars|
  {
    if chars != {} {
      var c := MinOf(chars) as Code;
      var rest := chars - {c};
      AscendingSorted(rest);
      AscendingMembers(rest);
      var ys := Ascending(rest);
      var xs := Ascending(chars);
      assert xs == [c] + ys;
      forall i, j | 0 <= i < j < |xs| ensures xs[i] < xs[j] {
        if i == 0 {
          assert xs[j] == ys[j - 1];
          assert ys[j - 1] in rest;
        } else {
          assert xs[i] == ys[i - 1] && xs[j] == ys[j - 1];
        }
      }
    }
  }

  /** Each code followed by a space. */
  function Spaced(xs: seq<Code>): (text: seq<Code>)
    ensures |text| == 2 * |xs|
  {
    if xs == [] then [] else [xs[0], Space] + Spaced(xs[1..])
  }

  /** Position 2i of the spaced text holds code i, position 2i + 1 a space. */
  lemma {:induction false} SpacedLayout(xs: seq<Code>)
    ensures forall i :: 0 <= i < |xs| ==> Spaced(xs)[2 * i] == xs[i] && Spaced(xs)[2 * i + 1] == Space
  {
    if xs != [] {
      SpacedLayout(xs[1..]);
      forall i | 1 <= i < |xs| ensures Spaced(xs)[2 * i] == xs[i] && Spaced(xs)[2 * i + 1] == Space {
        assert Spaced(xs)[2 * i] == Spaced(xs[1..])[2 * (i - 1)];
        assert Spaced(xs)[2 * i + 1] == Spaced(xs[1..])[2 * (i - 1) + 1];
      }
    }
  }

  /** The charset as printed: each character in ascending order followed
      by a space. */
  function Listing(chars: set<Code>): seq<Code> {
    Spaced(Ascending(chars))
  }

  /** Rebuilds the stretched map from the buckets, visiting them in
      ascending order of brightness as a TreeMap does (the rebuild branch of
      getCharByImageBrightness). */
  method StretchBuckets(buckets: map<real, set<Code>>) returns (table: map<real, Code>)
    requires buckets.Keys != {}
    requires NoEmptyBucket(buckets)
    ensures table == Stretch(buckets)
  {
    var minBrightness := MinReal(buckets.Keys);
    var maxBrightness := MaxReal(buckets.Keys);
    table := map[];
    var rest := buckets.Keys;
    while rest != {}
      invariant rest <= buckets.Keys
      invariant table == StretchOn(buckets, buckets.Keys - rest, minBrightness, maxBrightness)
      decreases |rest|
    {
      var key := MinReal(rest);
      StretchOnInsert(buckets, buckets.Keys - rest, key, minBrightness, maxBrightness);
      table := table[NormKey(key, minBrightness, maxBrightness) := MinOf(buckets[key]) as Code];
      assert buckets.Keys - (rest - {key}) == (buckets.Keys - rest) + {key};
      rest := rest - {key};
    }
    assert buckets.Keys - rest == buckets.Keys;
  }

  // ---------------------------------------------------------------------
  // The matcher

  /** The matcher's invariant on its field values: the buckets group the
      print set by brightness, and a stretched map marked up to date is the
      stretch of the buckets. */
  ghost predicate Consistent(buckets: map<real, set<Code>>, chars: set<Code>, luma: Code -> real,
                             stretched: bool, table: map<real, Code>) {
    buckets == Buckets(chars, luma) &&
    (stretched ==> buckets.Keys != {} && NoEmptyBucket(buckets) && table == Stretch(buckets))
  }

  class SubImgCharMatcher {
    /** The glyph of each character, from the font renderer. */
    const glyph: Code -> Glyph
    /** The brightness of each character under `glyph`. */
    ghost const luma: Code -> real
    /** The characters grouped by brightness. */
    var charTreeSet: map<real, set<Code>>
    /** Stretched brightness to smallest character, rebuilt on demand. */
    var stretchedSet: map<real, Code>
    /** The characters in use. */
    var setToPrint: set<Code>
    /** Whether stretchedSet is up to date. */
    var stretched: bool

    ghost predicate Valid()
      reads this
    {
      (forall c {:trigger Luma(glyph(c))} :: luma(c) == Luma(glyph(c))) &&
      Consistent(charTreeSet, setToPrint, luma, stretched, stretchedSet)
    }

    /** A matcher holding the characters of `charset`. */
    constructor (charset: seq<Code>, glyph: Code -> Glyph)
      ensures Valid() && this.glyph == glyph
      ensures setToPrint == set i | 0 <= i < |charset| :: charset[i]
      ensures !stretched && stretchedSet == map[]
    {
      this.glyph := glyph;
      luma := LumaOf(glyph);
      charTreeSet := map[];
      setToPrint := {};
      stretchedSet := map[];
      stretched := false;
      new;
      assert Buckets({}, luma) == map[];
      for i := 0 to |charset|
        invariant Valid() && this.glyph == glyph
        invariant setToPrint == set j | 0 <= j < i :: charset[j]
        invariant !stretched && stretchedSet == map[]
      {
        AddChar(charset[i]);
        assert setToPrint + {charset[i]} == setToPrint;
        setToPrint := setToPrint + {charset[i]};
        assert (set j | 0 <= j < i + 1 :: charset[j]) == (set j | 0 <= j < i :: charset[j]) + {charset[i]};
      }
    }

    /** The fraction of lit cells of the glyph of c, counted cell by cell
        (getBrightnessByChar). */
    method GetBrightnessByChar(c: Code) returns (brightness: real)
      ensures brightness == Luma(glyph(c))
    {
      var boolArray := glyph(c);
      var count := 0;
      for i := 0 to 16
        invariant count == CellsOn(boolArray[..i])
      {
        for j := 0 to 16
          invariant count == CellsOn(boolArray[..i]) + RowOn(boolArray[i][..j])
        {
          assert boolArray[i][..j + 1][..j] == boolArray[i][..j];
          if boolArray[i][j] {
            count := count + 1;
          }
        }
        assert boolArray[i][..16] == boolArray[i];
        assert boolArray[..i + 1][..i] == boolArray[..i];
      }
      assert boolArray[..16] == boolArray;
      brightness := count as real / 256.0;
    }

    /** Adds c to the bucket of its brightness (addChar). */
    method AddChar(c: Code)
      requires Valid()
      modifies this
      ensures Valid()
      ensures setToPrint == old(setToPrint) + {c}
      ensures charTreeSet == AddToBucket(old(charTreeSet), Luma(glyph(c)), c)
      ensures !stretched && stretchedSet == old(stretchedSet)
    {
      var brightness := GetBrightnessByChar(c);
      var bucket := if brightness in charTreeSet then charTreeSet[brightness] else {};
      charTreeSet := charTreeSet[brightness := bucket + {c}];
      setToPrint := setToPrint + {c};
      stretched := false;
      BucketsAdd(old(setToPrint), c, luma);
    }

    /** Takes c out of the matcher if it is there (removeChar). The source
        also returns when c's bucket is missing; while Valid() holds a held
        character always has its bucket. */
    method RemoveChar(c: Code)
      requires Valid()
      modifies this
      ensures Valid()
      ensures c !in old(setToPrint) ==> unchanged(this)
      ensures c in old(setToPrint) ==>
        setToPrint == old(setToPrint) - {c} && !stretched && stretchedSet == old(stretchedSet) &&
        charTreeSet == RemoveFromBucket(old(charTreeSet), Luma(glyph(c)), c)
    {
      if c !in setToPrint {
        return;
      }
      var brightness := GetBrightnessByChar(c);
      BucketsRemove(setToPrint, c, luma);
      var brightnessTreeSet := charTreeSet[brightness];
      if |brightnessTreeSet| == 1 {
        assert brightnessTreeSet - {c} == {} by {
          assert |brightnessTreeSet - {c}| == 0;
        }
        charTreeSet := charTreeSet - {brightness};
      } else {
        assert brightnessTreeSet - {c} != {} by {
          assert |brightnessTreeSet - {c}| == |brightnessTreeSet| - 1;
        }
        charTreeSet := charTreeSet[brightness := brightnessTreeSet - {c}];
      }
      setToPrint := setToPrint - {c};
      stretched := false;
    }

    /** The character for a brightness (getCharByImageBrightness): rebuilds
        the stretched map from the buckets in ascending order when it is out
        of date, then answers the nearest stretched brightness. The source
        reads the first bucket without a check, so the charset must not be
        empty, and a brightness outside [0, 1] finds no floor or no ceiling
        entry, so the query must lie in [0, 1]. */
    method GetCharByImageBrightness(brightness: real) returns (c: Code)
      requires Valid() && setToPrint != {}
      requires 0.0 <= brightness <= 1.0
      modifies this`stretched, this`stretchedSet
      ensures Valid() && stretched
      ensures charTreeSet.Keys != {}
      ensures c == Match(charTreeSet, brightness)
      ensures c in setToPrint
    {
      var buckets := charTreeSet;
      MatchInCharset(setToPrint, luma, brightness);
      StretchNonEmpty(buckets);
      if !stretched {
        var table := StretchBuckets(buckets);
        stretchedSet := table;
        stretched := true;
      }
      assert charTreeSet == buckets;
      assert stretchedSet == Stretch(buckets);
      c := Closest(stretchedSet, brightness);
    }

    /** The charset as text (toString). */
    method ToString() returns (text: seq<Code>)
      ensures text == Listing(setToPrint)
      ensures text == [] <==> setToPrint == {}
    {
      if setToPrint == {} {
        return [];
      }
      text := [];
      var rest := setToPrint;
      while rest != {}
        invariant text + Spaced(Ascending(rest)) == Listing(setToPrint)
        decreases |rest|
      {
        var c := MinOf(rest) as Code;
        assert Spaced(Ascending(rest)) == [c, Space] + Spaced(Ascending(rest - {c})) by {
          assert ([c] + Ascending(rest - {c}))[1..] == Ascending(rest - {c});
        }
        text := text + [c, Space];
        rest := rest - {c};
      }
    }
  }
}
