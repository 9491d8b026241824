/** The encoder's output does not depend on the host's byte order. The same image held on a
    big- and on a little-endian host has the same channels but different packed words, hence
    different cache keys; relabelling every pixel and every key with the other host's packing
    turns any run of the encoder on one host into a run on the other that writes the same bytes.

    The cache lemmas are stated for any pair of mutually inverse relabellings `f` and `g` of
    the keys; `StreamSameOnBothHosts` instantiates them with the re-packing of a word. */
module QoiHosts {
  import opened Bytes
  import opened Channels
  import opened Pixel32
  import opened QoiOps
  import opened QoiEncoder

  /** The pixel with the same channels, packed as host `to` packs it. */
  function Moved(from: bool, to: bool, p: Pixel): (q: Pixel)
    ensures R(to, q) == R(from, p) && G(to, q) == G(from, p) && B(to, q) == B(from, p) && A(to, q) == A(from, p)
  {
    FromChannels(to, R(from, p), G(from, p), B(from, p), A(from, p))
  }

  /** Moving there and back gives the pixel back. */
  lemma MovedBack(from: bool, to: bool, p: Pixel)
    ensures Moved(to, from, Moved(from, to, p)) == p
  {
    ChannelsDetermine(from, Moved(to, from, Moved(from, to, p)), p);
  }

  /** `g` undoes `f` and `f` undoes `g`. */
  ghost predicate Inverses(f: u32 -> u32, g: u32 -> u32) {
    (forall k :: g(f(k)) == k) && (forall k :: f(g(k)) == k)
  }

  /** The cache with every key relabelled by `f`, whose inverse is `g`. */
  ghost function Relabel(g: u32 -> u32, cache: map<u32, byte>): (m: map<u32, byte>)
    ensures forall k :: k in m <==> g(k) in cache
    ensures forall k :: k in m ==> m[k] == cache[g(k)]
  {
    map k: u32 | 0 <= k < 0x1_0000_0000 && g(k) in cache :: cache[g(k)]
  }

  /** Distinct keys stay distinct, so a set of keys keeps its size. */
  lemma {:induction false} ImageCount(f: u32 -> u32, g: u32 -> u32, s: set<u32>)
    requires Inverses(f, g)
    ensures |set x | x in s :: f(x)| == |s|
    decreases |s|
  {
    if s != {} {
      var y :| y in s;
      var rest := s - {y};
      ImageCount(f, g, rest);
      var image := set x | x in s :: f(x);
      var restImage := set x | x in rest :: f(x);
      assert image == restImage + {f(y)};
      assert f(y) !in restImage by {
        forall x | x in rest
          ensures f(x) != f(y)
        {
          assert g(f(x)) == x && g(f(y)) == y;
        }
      }
    }
  }

  /** Relabelling keeps the cache's size, which decides whether `updateIndex` evicts. */
  lemma RelabelSize(f: u32 -> u32, g: u32 -> u32, cache: map<u32, byte>)
    requires Inverses(f, g)
    ensures |Relabel(g, cache)| == |cache|
  {
    var m := Relabel(g, cache);
    var image := set x | x in cache.Keys :: f(x);
    forall k | k in m.Keys
      ensures k in image
    {
      assert f(g(k)) == k;
    }
    forall k | k in image
      ensures k in m.Keys
    {
      var x :| x in cache.Keys && k == f(x);
      assert g(f(x)) == x;
    }
    assert m.Keys == image;
    ImageCount(f, g, cache.Keys);
    assert |m| == |m.Keys| && |cache| == |cache.Keys|;
  }

  /** Storing a slot relabels to storing it under the relabelled key. */
  lemma RelabelStore(f: u32 -> u32, g: u32 -> u32, cache: map<u32, byte>, key: u32, v: byte)
    requires Inverses(f, g)
    ensures Relabel(g, cache[key := v]) == Relabel(g, cache)[f(key) := v]
  {
    var lhs := Relabel(g, cache[key := v]);
    var rhs := Relabel(g, cache)[f(key) := v];
    forall k | k in lhs || k in rhs
      ensures k in lhs && k in rhs && lhs[k] == rhs[k]
    {
      assert g(f(key)) == key && f(g(k)) == k;
    }
  }

  /** Evicting a key relabels to evicting the relabelled key. */
  lemma RelabelEvict(f: u32 -> u32, g: u32 -> u32, cache: map<u32, byte>, key: u32)
    requires Inverses(f, g)
    ensures Relabel(g, cache - {key}) == Relabel(g, cache) - {f(key)}
  {
    var lhs := Relabel(g, cache - {key});
    var rhs := Relabel(g, cache) - {f(key)};
    forall k | k in lhs || k in rhs
      ensures k in lhs && k in rhs && lhs[k] == rhs[k]
    {
      assert g(f(key)) == key && f(g(k)) == k;
    }
  }

  /** `moved` is `pixels` on host `to`: the same channels, the keys relabelled by `f`. */
  ghost predicate SameImage(from: bool, to: bool, f: u32 -> u32, pixels: seq<Pixel>, moved: seq<Pixel>) {
    |moved| == |pixels|
    && forall i :: 0 <= i < |pixels| ==>
         moved[i].packed == f(pixels[i].packed)
         && R(to, moved[i]) == R(from, pixels[i]) && G(to, moved[i]) == G(from, pixels[i])
         && B(to, moved[i]) == B(from, pixels[i]) && A(to, moved[i]) == A(from, pixels[i])
  }

  /** The cache slot depends on the channels only. */
  lemma HashMoves(from: bool, to: bool, p: Pixel, q: Pixel)
    requires R(to, q) == R(from, p) && G(to, q) == G(from, p) && B(to, q) == B(from, p) && A(to, q) == A(from, p)
    ensures Hash(to, q) == Hash(from, p)
  {
  }

  /** An eviction followed by an insertion is the same on the other host, the victim being the
      relabelled victim. */
  lemma EvictStoreMoves(f: u32 -> u32, g: u32 -> u32, before: map<u32, byte>, victim: u32, key: u32, h: byte)
    requires Inverses(f, g) && victim in before
    ensures f(victim) in Relabel(g, before)
    ensures Relabel(g, (before - {victim})[key := h]) == (Relabel(g, before) - {f(victim)})[f(key) := h]
  {
    RelabelEvict(f, g, before, victim);
    RelabelStore(f, g, before - {victim}, key, h);
    assert g(f(victim)) == victim;
  }

  /** An insertion, or an eviction followed by one, is the same on the other host: the slot is
      the hash of the same channels, and the victim is the relabelled victim. */
  lemma InsertedMoves(from: bool, to: bool, f: u32 -> u32, g: u32 -> u32,
                      before: map<u32, byte>, p: Pixel, q: Pixel, after: map<u32, byte>)
    requires Inverses(f, g) && q.packed == f(p.packed)
    requires R(to, q) == R(from, p) && G(to, q) == G(from, p) && B(to, q) == B(from, p) && A(to, q) == A(from, p)
    requires Inserted(from, before, p, after)
    ensures Inserted(to, Relabel(g, before), q, Relabel(g, after))
  {
    RelabelSize(f, g, before);
    HashMoves(from, to, p, q);
    var h := Hash(from, p);
    if |before| >= 64 {
      var victim :| victim in before && after == (before - {victim})[p.packed := h];
      EvictStoreMoves(f, g, before, victim, p.packed, h);
    } else {
      RelabelStore(f, g, before, p.packed, h);
    }
  }

  /** Pixels are equal on one host exactly when they are on the other. */
  lemma SamePixelsMove(from: bool, to: bool, f: u32 -> u32, g: u32 -> u32, pixels: seq<Pixel>, moved: seq<Pixel>, i: nat, j: nat)
    requires Inverses(f, g) && SameImage(from, to, f, pixels, moved) && i < |pixels| && j < |pixels|
    ensures moved[i] == moved[j] <==> pixels[i] == pixels[j]
  {
    assert g(f(pixels[i].packed)) == pixels[i].packed && g(f(pixels[j].packed)) == pixels[j].packed;
  }

  /** A stretch of repeated pixels is a stretch of repeated pixels on the other host too. */
  lemma RepeatsMove(from: bool, to: bool, f: u32 -> u32, g: u32 -> u32,
                    pixels: seq<Pixel>, moved: seq<Pixel>, pos: nat, count: nat)
    requires Inverses(f, g) && SameImage(from, to, f, pixels, moved) && pos + count <= |pixels|
    requires forall k :: pos <= k < pos + count ==> pixels[k] == pixels[pos]
    ensures forall k :: pos <= k < pos + count ==> moved[k] == moved[pos]
  {
    forall k | pos <= k < pos + count
      ensures moved[k] == moved[pos]
    {
      SamePixelsMove(from, to, f, g, pixels, moved, k, pos);
    }
  }

  /** The length of a run is the same on both hosts. */
  lemma {:induction false} RunFromMoves(from: bool, to: bool, f: u32 -> u32, g: u32 -> u32,
                                        pixels: seq<Pixel>, moved: seq<Pixel>, pos: nat, count: nat)
    requires Inverses(f, g) && SameImage(from, to, f, pixels, moved)
    requires 1 <= count <= 62 && pos + count <= |pixels|
    requires forall k :: pos <= k < pos + count ==> pixels[k] == pixels[pos]
    requires forall k :: pos <= k < pos + count ==> moved[k] == moved[pos]
    ensures RunFrom(moved, pos, count) == RunFrom(pixels, pos, count)
    decreases 62 - count
  {
    if count < 62 && pos + count != |pixels| {
      SamePixelsMove(from, to, f, g, pixels, moved, pos + count, pos);
      if pixels[pos + count].packed == pixels[pos].packed {
        RunFromMoves(from, to, f, g, pixels, moved, pos, count + 1);
      }
    }
  }

  /** The channel differences between two pixels are the same on both hosts. */
  lemma DeltasMove(from: bool, to: bool, prev: Pixel, cur: Pixel, prev': Pixel, cur': Pixel)
    requires R(to, prev') == R(from, prev) && G(to, prev') == G(from, prev) && B(to, prev') == B(from, prev) && A(to, prev') == A(from, prev)
    requires R(to, cur') == R(from, cur) && G(to, cur') == G(from, cur) && B(to, cur') == B(from, cur) && A(to, cur') == A(from, cur)
    ensures Delta(to, prev', cur', Red) == Delta(from, prev, cur, Red)
    ensures Delta(to, prev', cur', Green) == Delta(from, prev, cur, Green)
    ensures Delta(to, prev', cur', Blue) == Delta(from, prev, cur, Blue)
    ensures CanDiff(to, prev', cur') == CanDiff(from, prev, cur)
    ensures CanLuma(to, prev', cur') == CanLuma(from, prev, cur)
  {
  }

  /** A RUN is the same on both hosts. */
  lemma RunOpMoves(from: bool, to: bool, f: u32 -> u32, g: u32 -> u32,
                   pixels: seq<Pixel>, moved: seq<Pixel>, pos: nat, cache: map<u32, byte>)
    requires Inverses(f, g) && SameImage(from, to, f, pixels, moved) && 1 <= pos < |pixels|
    requires CanRun(pixels[pos - 1], pixels[pos])
    ensures SelectOp(to, moved, pos, Relabel(g, cache)) == SelectOp(from, pixels, pos, cache)
  {
    SamePixelsMove(from, to, f, g, pixels, moved, pos, pos - 1);
    RepeatsMove(from, to, f, g, pixels, moved, pos, 1);
    RunFromMoves(from, to, f, g, pixels, moved, pos, 1);
  }

  /** DIFF, LUMA, INDEX and NEW are the same on both hosts: they depend on the channels and on
      whether the (relabelled) key is cached. */
  lemma ChangeOpMoves(from: bool, to: bool, f: u32 -> u32, g: u32 -> u32,
                      pixels: seq<Pixel>, moved: seq<Pixel>, pos: nat, cache: map<u32, byte>)
    requires Inverses(f, g) && SameImage(from, to, f, pixels, moved) && 1 <= pos < |pixels|
    requires !CanRun(pixels[pos - 1], pixels[pos])
    ensures SelectOp(to, moved, pos, Relabel(g, cache)) == SelectOp(from, pixels, pos, cache)
  {
    var prev, cur := pixels[pos - 1], pixels[pos];
    var prev', cur' := moved[pos - 1], moved[pos];
    var cache' := Relabel(g, cache);
    SamePixelsMove(from, to, f, g, pixels, moved, pos, pos - 1);
    DeltasMove(from, to, prev, cur, prev', cur');
    assert g(cur'.packed) == cur.packed;
    assert CanIndex(cur', cache') == CanIndex(cur, cache);
    var op := SelectOp(from, pixels, pos, cache);
    if CanDiff(from, prev, cur) || CanLuma(from, prev, cur) {
      assert op.Diff? || op.Luma?;
    } else if CanIndex(cur, cache) {
      assert cache'[cur'.packed] == cache[cur.packed];
      assert op == Index(cache[cur.packed]);
    } else {
      assert op == New(R(from, cur), G(from, cur), B(from, cur), A(from, cur));
    }
  }

  /** The opcode chosen at a pixel is the same on both hosts. */
  lemma SelectOpMoves(from: bool, to: bool, f: u32 -> u32, g: u32 -> u32,
                      pixels: seq<Pixel>, moved: seq<Pixel>, pos: nat, cache: map<u32, byte>)
    requires Inverses(f, g) && SameImage(from, to, f, pixels, moved) && 1 <= pos < |pixels|
    ensures SelectOp(to, moved, pos, Relabel(g, cache)) == SelectOp(from, pixels, pos, cache)
  {
    if CanRun(pixels[pos - 1], pixels[pos]) {
      RunOpMoves(from, to, f, g, pixels, moved, pos, cache);
    } else {
      ChangeOpMoves(from, to, f, g, pixels, moved, pos, cache);
    }
  }

  /** The steps with every cache relabelled; the opcodes stay as they are. */
  ghost function MoveSteps(g: u32 -> u32, steps: seq<Step>): (r: seq<Step>)
    ensures |r| == |steps|
    ensures forall i :: 0 <= i < |steps| ==> r[i] == Step(steps[i].op, Relabel(g, steps[i].cache))
  {
    seq(|steps|, i requires 0 <= i < |steps| => Step(steps[i].op, Relabel(g, steps[i].cache)))
  }

  /** One step of a trace moves to a step of the trace on the other host: the same opcode,
      and the cache change relabelled. */
  lemma StepMoves(from: bool, to: bool, f: u32 -> u32, g: u32 -> u32, pixels: seq<Pixel>, moved: seq<Pixel>,
                  pos: nat, cache: map<u32, byte>, op: Opcode, after: map<u32, byte>)
    requires Inverses(f, g) && SameImage(from, to, f, pixels, moved) && pos < |pixels|
    requires op == (if pos == 0 then FirstOp(from, pixels[0]) else SelectOp(from, pixels, pos, cache))
    requires CacheStep(from, cache, op, pixels[pos], after)
    ensures op == (if pos == 0 then FirstOp(to, moved[0]) else SelectOp(to, moved, pos, Relabel(g, cache)))
    ensures CacheStep(to, Relabel(g, cache), op, moved[pos], Relabel(g, after))
  {
    if pos > 0 {
      SelectOpMoves(from, to, f, g, pixels, moved, pos, cache);
    }
    if op.Diff? || op.Luma? || op.New? {
      InsertedMoves(from, to, f, g, cache, pixels[pos], moved[pos], after);
    }
  }

  /** Moving the caches keeps the last step and the steps before it apart. */
  lemma MoveStepsSplit(g: u32 -> u32, steps: seq<Step>)
    requires |steps| > 0
    ensures Init(MoveSteps(g, steps)) == MoveSteps(g, Init(steps))
    ensures Last(MoveSteps(g, steps)) == Step(Last(steps).op, Relabel(g, Last(steps).cache))
  {
  }

  /** Moving the caches keeps the pixels covered. */
  lemma {:induction false} AdvanceMoves(g: u32 -> u32, steps: seq<Step>)
    ensures Advance(MoveSteps(g, steps)) == Advance(steps)
    decreases |steps|
  {
    if |steps| > 0 {
      MoveStepsSplit(g, steps);
      AdvanceMoves(g, Init(steps));
    }
  }

  /** Moving the caches keeps the bytes, on whichever host they are written. */
  lemma {:induction false} StreamBytesMoves(from: bool, to: bool, g: u32 -> u32, steps: seq<Step>)
    ensures StreamBytes(to, MoveSteps(g, steps)) == StreamBytes(from, steps)
    decreases |steps|
  {
    if |steps| > 0 {
      MoveStepsSplit(g, steps);
      StreamBytesMoves(from, to, g, Init(steps));
      OpBytesSameOnBothHosts(Last(steps).op);
    }
  }

  /** The cache after the moved steps is the moved cache. */
  lemma CacheAfterMoves(g: u32 -> u32, steps: seq<Step>)
    ensures CacheAfter(MoveSteps(g, steps)) == Relabel(g, CacheAfter(steps))
  {
    if |steps| == 0 {
      assert Relabel(g, map[]) == map[];
    } else {
      MoveStepsSplit(g, steps);
    }
  }

  /** Any trace of the encoder on one host, moved to the other host, is a trace there over the
      moved pixels. */
  lemma {:induction false} TraceMoves(from: bool, to: bool, f: u32 -> u32, g: u32 -> u32,
                                      pixels: seq<Pixel>, moved: seq<Pixel>, steps: seq<Step>)
    requires Inverses(f, g) && SameImage(from, to, f, pixels, moved) && IsTrace(from, pixels, steps)
    ensures IsTrace(to, moved, MoveSteps(g, steps))
    decreases |steps|
  {
    if |steps| > 0 {
      var init := Init(steps);
      var last := Last(steps);
      TraceMoves(from, to, f, g, pixels, moved, init);
      MoveStepsSplit(g, steps);
      AdvanceMoves(g, init);
      CacheAfterMoves(g, init);
      StepMoves(from, to, f, g, pixels, moved, Advance(init), CacheAfter(init), last.op, last.cache);
    }
  }

  /** The key of a packed word re-packed for host `to`. */
  function Repack(from: bool, to: bool): u32 -> u32 {
    k => Moved(from, to, Pixel(k)).packed
  }

  /** Re-packing for the other host and back gives the word back. */
  lemma RepackInverses(from: bool, to: bool)
    ensures Inverses(Repack(from, to), Repack(to, from))
  {
    forall k: u32
      ensures Repack(to, from)(Repack(from, to)(k)) == k && Repack(from, to)(Repack(to, from)(k)) == k
    {
      MovedBack(from, to, Pixel(k));
      MovedBack(to, from, Pixel(k));
    }
  }

  /** An image as host `to` holds it. */
  function MovedImage(from: bool, to: bool, pixels: seq<Pixel>): (moved: seq<Pixel>)
    ensures |moved| == |pixels|
    ensures forall i :: 0 <= i < |pixels| ==> moved[i] == Moved(from, to, pixels[i])
  {
    seq(|pixels|, i requires 0 <= i < |pixels| => Moved(from, to, pixels[i]))
  }

  lemma MovedImageSame(from: bool, to: bool, pixels: seq<Pixel>)
    ensures SameImage(from, to, Repack(from, to), pixels, MovedImage(from, to, pixels))
  {
    var moved := MovedImage(from, to, pixels);
    forall i | 0 <= i < |pixels|
      ensures moved[i].packed == Repack(from, to)(pixels[i].packed)
    {
      assert Pixel(pixels[i].packed) == pixels[i];
    }
  }

  /** Whatever a complete encoding of an image writes on one host, the encoder on the other host
      can write too, byte for byte, for the same image packed that host's way (which cache
      entries are evicted being unspecified on both). */
  lemma StreamSameOnBothHosts(from: bool, to: bool, pixels: seq<Pixel>, steps: seq<Step>)
    requires IsTrace(from, pixels, steps) && Advance(steps) == |pixels|
    ensures exists steps' :: IsTrace(to, MovedImage(from, to, pixels), steps') && Advance(steps') == |pixels|
                             && StreamBytes(to, steps') == StreamBytes(from, steps)
  {
    RepackInverses(from, to);
    MovedImageSame(from, to, pixels);
    TraceMoves(from, to, Repack(from, to), Repack(to, from), pixels, MovedImage(from, to, pixels), steps);
    var steps' := MoveSteps(Repack(to, from), steps);
    AdvanceMoves(Repack(to, from), steps);
    StreamBytesMoves(from, to, Repack(to, from), steps);
    assert IsTrace(to, MovedImage(from, to, pixels), steps') && Advance(steps') == |pixels|;
  }
}
