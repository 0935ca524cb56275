/** One flat byte sequence behind a chain of equal chunks: what the nodes of `easy/net/Buffer.cc` stand
    for, and how a range of it is cut at node boundaries. */
module Flat {
  import opened Bits

  function Flatten(cs: seq<seq<Byte>>): seq<Byte> {
    if cs == [] then [] else cs[0] + Flatten(cs[1..])
  }

  predicate Uniform(cs: seq<seq<Byte>>, base: nat) {
    forall i :: 0 <= i < |cs| ==> |cs[i]| == base
  }

  function Splice(s: seq<Byte>, pos: nat, d: seq<Byte>): (r: seq<Byte>)
    requires pos + |d| <= |s|
    ensures |r| == |s|
  {
    s[..pos] + d + s[pos + |d|..]
  }

  lemma FlattenOne(a: seq<Byte>)
    ensures Flatten([a]) == a
  {
    assert [a][1..] == [];
  }

  lemma FlattenTwo(a: seq<Byte>, b: seq<Byte>)
    ensures Flatten([a, b]) == a + b
  {
    assert [a, b][1..] == [b];
    FlattenOne(b);
  }

  lemma {:induction false} FlattenAppend(a: seq<seq<Byte>>, b: seq<seq<Byte>>)
    ensures Flatten(a + b) == Flatten(a) + Flatten(b)
  {
    if a == [] {
      assert a + b == b;
    } else {
      assert (a + b)[1..] == a[1..] + b;
      FlattenAppend(a[1..], b);
    }
  }

  lemma {:induction false} FlattenLength(cs: seq<seq<Byte>>, base: nat)
    requires Uniform(cs, base)
    ensures |Flatten(cs)| == |cs| * base
  {
    if cs != [] {
      FlattenLength(cs[1..], base);
      assert |cs| * base == base + (|cs| - 1) * base;
    }
  }

  lemma FlattenAround(cs: seq<seq<Byte>>, base: nat, k: nat)
    requires Uniform(cs, base) && k < |cs|
    ensures Flatten(cs) == Flatten(cs[..k]) + cs[k] + Flatten(cs[k + 1..])
    ensures |Flatten(cs[..k])| == k * base && k * base + base <= |Flatten(cs)|
  {
    assert cs == cs[..k] + cs[k..] && cs[k..][1..] == cs[k + 1..];
    FlattenAppend(cs[..k], cs[k..]);
    FlattenLength(cs[..k], base);
  }

  /** The bytes inside one chunk are a slice of the flat sequence. */
  lemma FlattenRead(cs: seq<seq<Byte>>, base: nat, k: nat, o: nat, n: nat)
    requires Uniform(cs, base) && k < |cs| && o + n <= base
    ensures k * base + o + n <= |Flatten(cs)|
    ensures Flatten(cs)[k * base + o..k * base + o + n] == cs[k][o..o + n]
  {
    FlattenAround(cs, base, k);
  }

  /** Overwriting inside one chunk splices the flat sequence. */
  lemma FlattenWrite(cs: seq<seq<Byte>>, base: nat, k: nat, o: nat, d: seq<Byte>)
    requires Uniform(cs, base) && k < |cs| && o + |d| <= base
    ensures k * base + o + |d| <= |Flatten(cs)|
    ensures Uniform(cs[k := Splice(cs[k], o, d)], base)
    ensures Flatten(cs[k := Splice(cs[k], o, d)]) == Splice(Flatten(cs), k * base + o, d)
  {
    var cs' := cs[k := Splice(cs[k], o, d)];
    FlattenAround(cs, base, k);
    FlattenAround(cs', base, k);
    assert cs'[..k] == cs[..k] && cs'[k + 1..] == cs[k + 1..];
  }

  lemma SpliceTwice(s: seq<Byte>, pos: nat, d: seq<Byte>, e: seq<Byte>)
    requires pos + |d| + |e| <= |s|
    ensures Splice(Splice(s, pos, d), pos + |d|, e) == Splice(s, pos, d + e)
  {
  }

  // ----- positions -----

  lemma Distribute(a: int, b: int, base: int)
    ensures (a + b) * base == a * base + b * base
  {
  }

  lemma PositionSplit(pos: nat, base: nat)
    requires base > 0
    ensures pos == pos / base * base + pos % base && pos % base < base
  {
  }

  /** A step of `m` bytes that does not leave chunk `k` of `n`. */
  lemma StepInside(k: nat, o: nat, m: nat, base: nat, n: nat)
    requires base > 0 && k < n && o + m <= base
    ensures o + m == base ==>
              k * base + o + m == (k + 1) * base && (k + 1 == n <==> k * base + o + m == n * base)
    ensures o + m < base ==> k * base + o + m < n * base
  {
    MulMonotone(k + 1, n, base);
    if k + 1 < n {
      MulMonotone(k + 2, n, base);
    }
  }

  /** A remainder of more than `base` bytes lies beyond chunk `k`; one of exactly `base` ends it. */
  lemma Reaches(k: nat, o: nat, base: nat, n: nat)
    requires base > 0 && k < n && k * base + o <= n * base
    ensures (k + 1) * base + (o - base) == k * base + o
    ensures o > base ==> k + 1 < n
    ensures o <= base ==> (k + 1 == n && o == base <==> k * base + o == n * base)
  {
    if k + 1 < n {
      MulMonotone(k + 2, n, base);
    }
  }

  lemma EndsInside(k: nat, o: nat, m: nat, base: nat, count: nat)
    requires k < count && o + m <= base
    ensures k * base + o + m <= count * base
  {
    MulMonotone(k + 1, count, base);
  }

  lemma PlaceInside(pos: nat, k: nat, o: nat, base: nat, count: nat)
    requires o < base && pos == k * base + o
    ensures k < count <==> pos < count * base
  {
    if k < count {
      MulMonotone(k + 1, count, base);
    } else {
      MulMonotone(count, k, base);
    }
  }

  lemma PositionInside(pos: nat, base: nat, count: nat)
    requires base > 0 && pos <= count * base
    ensures pos < count * base ==> pos / base < count
    ensures pos == count * base ==> pos / base == count
  {
    PositionSplit(pos, base);
    if pos < count * base && pos / base >= count {
      MulMonotone(count, pos / base, base);
    }
    if pos == count * base {
      DivModUnique(pos, base, count, 0);
    }
  }

  /** The least multiple of `base` that is at least `n`. */
  function RoundUp(n: nat, base: nat): (r: nat)
    requires base > 0
  {
    (n + base - 1) / base * base
  }

  lemma RoundUpBounds(n: nat, base: nat)
    requires base > 0
    ensures n <= RoundUp(n, base) < n + base
  {
    PositionSplit(n + base - 1, base);
  }

  lemma RoundUpLeast(n: nat, base: nat, k: nat)
    requires base > 0 && n <= k * base
    ensures RoundUp(n, base) <= k * base
  {
    var q := (n + base - 1) / base;
    RoundUpBounds(n, base);
    if q > k {
      MulMonotone(k + 1, q, base);
    }
  }

  /** Adding whole chunks to a capacity reaches the rounded-up demand. */
  lemma GrowthRoundsUp(cap: nat, count: nat, n: nat, base: nat)
    requires base > 0 && cap == count * base && n > cap
    ensures cap + RoundUp(n - cap, base) == RoundUp(n, base)
  {
    var q := (n - cap + base - 1) / base;
    PositionSplit(n - cap + base - 1, base);
    assert (count + q) * base == cap + q * base;
    DivModUnique(n + base - 1, base, count + q, (n - cap + base - 1) % base);
  }

  // ----- cutting a range at chunk boundaries -----

  /** How many of `n` bytes at `pos` lie in the chunk of `pos`. */
  function Piece(base: nat, pos: nat, n: nat): (m: nat)
    requires base > 0
    ensures m <= n && pos % base + m <= base
    ensures n > 0 ==> m > 0
  {
    if n <= base - pos % base then n else base - pos % base
  }

  /** `len` bytes of chunk `node` from `off`. */
  datatype Cut = Cut(node: nat, off: nat, len: nat)

  function Cuts(base: nat, pos: nat, n: nat): seq<Cut>
    requires base > 0
    decreases n
  {
    if n == 0 then []
    else
      var m := Piece(base, pos, n);
      [Cut(pos / base, pos % base, m)] + Cuts(base, pos + m, n - m)
  }

  /** The cuts are nonempty pieces of single chunks that cover `n` bytes from `pos` in order, each
      starting where the previous one ends. */
  ghost predicate Tiles(cuts: seq<Cut>, base: nat, pos: nat, n: nat) {
    if cuts == [] then n == 0
    else
      var c := cuts[0];
      && 0 < c.len <= n && c.off + c.len <= base
      && c.node * base + c.off == pos
      && Tiles(cuts[1..], base, pos + c.len, n - c.len)
  }

  predicate Fits(c: Cut, cs: seq<seq<Byte>>, base: nat) {
    c.node < |cs| && |cs[c.node]| == base && c.off + c.len <= base
  }

  ghost predicate Fitting(cuts: seq<Cut>, cs: seq<seq<Byte>>, base: nat) {
    forall i :: 0 <= i < |cuts| ==> Fits(cuts[i], cs, base)
  }

  function Gather(cs: seq<seq<Byte>>, base: nat, cuts: seq<Cut>): seq<Byte>
    requires Fitting(cuts, cs, base)
  {
    if cuts == [] then []
    else
      assert Fits(cuts[0], cs, base);
      cs[cuts[0].node][cuts[0].off..cuts[0].off + cuts[0].len] + Gather(cs, base, cuts[1..])
  }

  function TotalLength(cuts: seq<Cut>): nat {
    if cuts == [] then 0 else cuts[0].len + TotalLength(cuts[1..])
  }

  function FillCut(cs: seq<seq<Byte>>, base: nat, c: Cut, d: seq<Byte>): (r: seq<seq<Byte>>)
    requires Fits(c, cs, base) && |d| == c.len
    ensures |r| == |cs| && (Uniform(cs, base) ==> Uniform(r, base))
  {
    cs[c.node := Splice(cs[c.node], c.off, d)]
  }

  /** Filling the cuts, one after another, with the bytes of `d`. */
  function Scatter(cs: seq<seq<Byte>>, base: nat, cuts: seq<Cut>, d: seq<Byte>): (r: seq<seq<Byte>>)
    requires Uniform(cs, base) && Fitting(cuts, cs, base) && |d| == TotalLength(cuts)
    ensures |r| == |cs| && Uniform(r, base)
    decreases |cuts|
  {
    if cuts == [] then cs
    else
      assert Fits(cuts[0], cs, base);
      var cs' := FillCut(cs, base, cuts[0], d[..cuts[0].len]);
      assert forall i :: 0 <= i < |cuts[1..]| ==> Fits(cuts[i + 1], cs, base) ==> Fits(cuts[1..][i], cs', base);
      Scatter(cs', base, cuts[1..], d[cuts[0].len..])
  }

  lemma {:induction false} CutsTile(base: nat, pos: nat, n: nat)
    requires base > 0
    ensures Tiles(Cuts(base, pos, n), base, pos, n)
    decreases n
  {
    if n > 0 {
      var m := Piece(base, pos, n);
      PositionSplit(pos, base);
      CutsTile(base, pos + m, n - m);
      assert Cuts(base, pos, n)[1..] == Cuts(base, pos + m, n - m);
    }
  }

  lemma {:induction false} TilesTotal(cuts: seq<Cut>, base: nat, pos: nat, n: nat)
    requires Tiles(cuts, base, pos, n)
    ensures TotalLength(cuts) == n
  {
    if cuts != [] {
      TilesTotal(cuts[1..], base, pos + cuts[0].len, n - cuts[0].len);
    }
  }

  /** Tiles are disjoint and ordered: an earlier one ends at or before a later one starts. */
  lemma {:induction false} TilesDisjoint(cuts: seq<Cut>, base: nat, pos: nat, n: nat, i: nat, j: nat)
    requires Tiles(cuts, base, pos, n) && i < j < |cuts|
    ensures cuts[i].node * base + cuts[i].off + cuts[i].len <= cuts[j].node * base + cuts[j].off
  {
    if i > 0 {
      TilesDisjoint(cuts[1..], base, pos + cuts[0].len, n - cuts[0].len, i - 1, j - 1);
    } else {
      TileStart(cuts[1..], base, pos + cuts[0].len, n - cuts[0].len, j - 1);
    }
  }

  lemma {:induction false} TileStart(cuts: seq<Cut>, base: nat, pos: nat, n: nat, j: nat)
    requires Tiles(cuts, base, pos, n) && j < |cuts|
    ensures pos <= cuts[j].node * base + cuts[j].off
  {
    if j > 0 {
      TileStart(cuts[1..], base, pos + cuts[0].len, n - cuts[0].len, j - 1);
    }
  }

  lemma {:induction false} CutsFit(cs: seq<seq<Byte>>, base: nat, pos: nat, n: nat)
    requires base > 0 && Uniform(cs, base) && pos + n <= |cs| * base
    ensures Fitting(Cuts(base, pos, n), cs, base)
    decreases n
  {
    if n > 0 {
      var m := Piece(base, pos, n);
      PositionInside(pos, base, |cs|);
      CutsFit(cs, base, pos + m, n - m);
      var cuts := Cuts(base, pos, n);
      assert forall i :: 0 < i < |cuts| ==> cuts[i] == Cuts(base, pos + m, n - m)[i - 1];
    }
  }

  /** Reading tiles gives the slice of the flat sequence that they cover. */
  lemma {:induction false} GatherTiles(cs: seq<seq<Byte>>, base: nat, cuts: seq<Cut>, pos: nat, n: nat)
    requires Uniform(cs, base) && Fitting(cuts, cs, base) && Tiles(cuts, base, pos, n)
    requires pos + n <= |Flatten(cs)|
    ensures Gather(cs, base, cuts) == Flatten(cs)[pos..pos + n]
    decreases |cuts|
  {
    hide Flatten, Uniform, Pow2;
    if cuts != [] {
      var c := cuts[0];
      assert Fits(c, cs, base);
      FlattenRead(cs, base, c.node, c.off, c.len);
      GatherTiles(cs, base, cuts[1..], pos + c.len, n - c.len);
      GatherStep(cs, base, cuts);
      SliceSplit(Flatten(cs), pos, c.len, n);
    } else {
      assert Flatten(cs)[pos..pos + n] == [];
    }
  }

  lemma GatherStep(cs: seq<seq<Byte>>, base: nat, cuts: seq<Cut>)
    requires Fitting(cuts, cs, base) && cuts != []
    ensures Fits(cuts[0], cs, base) && Fitting(cuts[1..], cs, base)
    ensures Gather(cs, base, cuts)
         == cs[cuts[0].node][cuts[0].off..cuts[0].off + cuts[0].len] + Gather(cs, base, cuts[1..])
  {
    assert Fits(cuts[0], cs, base);
    assert forall i :: 0 <= i < |cuts[1..]| ==> Fits(cuts[i + 1], cs, base) ==> Fits(cuts[1..][i], cs, base);
  }

  lemma SliceSplit(s: seq<Byte>, pos: nat, m: nat, n: nat)
    requires m <= n && pos + n <= |s|
    ensures s[pos..pos + n] == s[pos..pos + m] + s[pos + m..pos + n]
  {
  }

  /** Filling tiles splices the flat sequence where they start. */
  lemma {:induction false} ScatterTiles(cs: seq<seq<Byte>>, base: nat, cuts: seq<Cut>, pos: nat, d: seq<Byte>)
    requires Uniform(cs, base) && Fitting(cuts, cs, base) && Tiles(cuts, base, pos, |d|)
    requires pos + |d| <= |Flatten(cs)| && |d| == TotalLength(cuts)
    ensures Flatten(Scatter(cs, base, cuts, d)) == Splice(Flatten(cs), pos, d)
    decreases |cuts|
  {
    hide Flatten, Uniform, Fits;
    if cuts == [] {
      assert Splice(Flatten(cs), pos, d) == Flatten(cs);
    } else {
      hide Splice, FillCut, Scatter;
      var c, m := cuts[0], cuts[0].len;
      ScatterStep(cs, base, cuts, d);
      FillTile(cs, base, c, pos, d[..m]);
      ScatterTiles(FillCut(cs, base, c, d[..m]), base, cuts[1..], pos + m, d[m..]);
      SpliceTwice(Flatten(cs), pos, d[..m], d[m..]);
      assert d[..m] + d[m..] == d;
    }
  }

  lemma FillTile(cs: seq<seq<Byte>>, base: nat, c: Cut, pos: nat, d: seq<Byte>)
    requires Uniform(cs, base) && Fits(c, cs, base) && c.node * base + c.off == pos && |d| == c.len
    ensures pos + |d| <= |Flatten(cs)|
    ensures Flatten(FillCut(cs, base, c, d)) == Splice(Flatten(cs), pos, d)
  {
    FlattenWrite(cs, base, c.node, c.off, d);
  }

  lemma ScatterStep(cs: seq<seq<Byte>>, base: nat, cuts: seq<Cut>, d: seq<Byte>)
    requires Uniform(cs, base) && Fitting(cuts, cs, base) && |d| == TotalLength(cuts) && cuts != []
    ensures Fits(cuts[0], cs, base)
    ensures var cs' := FillCut(cs, base, cuts[0], d[..cuts[0].len]);
            && Fitting(cuts[1..], cs', base)
            && Scatter(cs, base, cuts, d) == Scatter(cs', base, cuts[1..], d[cuts[0].len..])
  {
    var cs' := FillCut(cs, base, cuts[0], d[..cuts[0].len]);
    assert forall i :: 0 <= i < |cuts[1..]| ==> Fits(cuts[i + 1], cs, base) ==> Fits(cuts[1..][i], cs', base);
  }

  lemma FirstLength(cuts: seq<Cut>)
    requires cuts != []
    ensures TotalLength(cuts) == cuts[0].len + TotalLength(cuts[1..])
  {
  }

  /** The cuts of a range read as that slice of the flat sequence and are filled as a splice at its
      start, whatever the chunk size. */
  lemma CutsActFlat(cs: seq<seq<Byte>>, base: nat, pos: nat, d: seq<Byte>)
    requires base > 0 && Uniform(cs, base) && pos + |d| <= |cs| * base
    ensures var cuts := Cuts(base, pos, |d|);
            && |Flatten(cs)| == |cs| * base
            && Fitting(cuts, cs, base) && TotalLength(cuts) == |d|
            && Gather(cs, base, cuts) == Flatten(cs)[pos..pos + |d|]
            && Flatten(Scatter(cs, base, cuts, d)) == Splice(Flatten(cs), pos, d)
  {
    var cuts := Cuts(base, pos, |d|);
    FlattenLength(cs, base);
    CutsFit(cs, base, pos, |d|);
    CutsTile(base, pos, |d|);
    TilesTotal(cuts, base, pos, |d|);
    GatherTiles(cs, base, cuts, pos, |d|);
    ScatterTiles(cs, base, cuts, pos, d);
  }
}
