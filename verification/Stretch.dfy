/** Damage of a surface stretched over the whole output: each dirty buffer
    rectangle is mapped with integer rounding and padded for the bilinear filter. */
module Stretch {
  import opened Geometry
  import opened Texture
  import opened Damage

  function Low(from: nat, src: nat, dst: nat, pad: nat): int
    requires src > 0
  {
    from * dst / src - pad
  }

  function High(to: nat, src: nat, dst: nat, pad: nat): int
    requires src > 0
  {
    (to * dst + src - 1) / src + pad
  }

  /** No pixel before the padded range reads the dirty texels. */
  lemma LowCovers(o: int, src: nat, dst: nat, from: nat, pad: nat)
    requires src > 0 && dst > 0 && pad >= CeilDiv(dst, src) + 1
    requires Texel(o, src, dst) + 1 >= from
    ensures Low(from, src, dst, pad) <= o
  {
    var t, f, p := Texel(o, src, dst), from * dst / src, CeilDiv(dst, src);
    FloorDiv((2 * o + 1) * src - dst, 2 * dst);
    FloorDiv(from * dst, src);
    FloorDiv(dst + src - 1, src);
    assert (2 * dst) * t >= (2 * dst) * (from - 1);
    assert (2 * dst) * (from - 1) == 2 * (from * dst) - 2 * dst;
    assert src * (2 * o + 1) >= 2 * (from * dst) - dst;
    assert src * (2 * f - 2 * p - 3) == 2 * (src * f) - 2 * (src * p) - 3 * src;
    Cancel(2 * f - 2 * p - 3, 2 * o + 1, src);
  }

  /** No pixel after it does. */
  lemma HighCovers(o: int, src: nat, dst: nat, to: nat, pad: nat)
    requires src > 0 && dst > 0 && pad >= CeilDiv(dst, src) + 1
    requires Texel(o, src, dst) < to
    ensures o < High(to, src, dst, pad)
  {
    var t, c, p := Texel(o, src, dst), (to * dst + src - 1) / src, CeilDiv(dst, src);
    FloorDiv((2 * o + 1) * src - dst, 2 * dst);
    FloorDiv(to * dst + src - 1, src);
    FloorDiv(dst + src - 1, src);
    assert (2 * dst) * (t + 1) <= (2 * dst) * to;
    assert (2 * dst) * to == 2 * (to * dst);
    assert src * (2 * o + 1) < 2 * (to * dst) + dst;
    assert src * (2 * c + 2 * p + 3) == 2 * (src * c) + 2 * (src * p) + 3 * src;
    Cancel(2 * o + 1, 2 * c + 2 * p + 3, src);
  }

  /** Along one axis the padded range holds every pixel that reads a dirty texel. */
  lemma AxisCovers(o: int, src: nat, dst: nat, from: nat, to: nat, pad: nat)
    requires src > 0 && dst > 0 && from < to <= src && pad >= CeilDiv(dst, src) + 1 && 0 <= o < dst
    requires Reads(o, src, dst, from, to)
    ensures Low(from, src, dst, pad) <= o < High(to, src, dst, pad)
  {
    TexelRange(o, src, dst);
    LowCovers(o, src, dst, from, pad);
    HighCovers(o, src, dst, to, pad);
  }

  /** Rounding outward alone would not do: a pixel outside the rounded range can
      mix in a dirty texel. */
  lemma PadNeeded()
    ensures Reads(4, 4, 8, 3, 4) == false && Reads(5, 4, 8, 3, 4) && Low(3, 4, 8, 0) == 6
  {
  }

  /** A dirty buffer rectangle clipped to the source, or nothing. */
  function ClipDirty(r: Rect, source: Rect): Rect {
    Rect(Max(r.x0 - source.x0, 0), Max(r.y0 - source.y0, 0),
         Min(r.x1 - source.x0, source.x1 - source.x0), Min(r.y1 - source.y0, source.y1 - source.y0))
  }

  function Pad(srcW: nat, srcH: nat, width: nat, height: nat): nat
    requires srcW > 0 && srcH > 0
  {
    var x, y := CeilDiv(width, srcW), CeilDiv(height, srcH);
    (if x > y then x else y) + 1
  }

  /** Output pixel `p` mixes in a texel of the clipped dirty rectangle. */
  predicate Samples(p: Point, c: Rect, srcW: nat, srcH: nat, width: nat, height: nat)
    requires srcW > 0 && srcH > 0 && width > 0 && height > 0
  {
    Reads(p.x, srcW, width, c.x0, c.x1) && Reads(p.y, srcH, height, c.y0, c.y1)
  }

  function Stretched(c: Rect, srcW: nat, srcH: nat, width: nat, height: nat): Rect
    requires srcW > 0 && srcH > 0 && 0 <= c.x0 <= c.x1 && 0 <= c.y0 <= c.y1
  {
    var pad := Pad(srcW, srcH, width, height);
    Rect(Low(c.x0, srcW, width, pad), Low(c.y0, srcH, height, pad),
         High(c.x1, srcW, width, pad), High(c.y1, srcH, height, pad))
  }

  lemma StretchedCovers(p: Point, c: Rect, srcW: nat, srcH: nat, width: nat, height: nat)
    requires srcW > 0 && srcH > 0 && width > 0 && height > 0
    requires 0 <= c.x0 < c.x1 <= srcW && 0 <= c.y0 < c.y1 <= srcH && Samples(p, c, srcW, srcH, width, height)
    requires Contains(Rect(0, 0, width, height), p)
    ensures Contains(Stretched(c, srcW, srcH, width, height), p)
  {
    var pad := Pad(srcW, srcH, width, height);
    AxisCovers(p.x, srcW, width, c.x0, c.x1, pad);
    AxisCovers(p.y, srcH, height, c.y0, c.y1, pad);
  }

  /** The mapped rectangle of a clipped dirty one, if that is not empty. */
  function MappedOne(c: Rect, srcW: nat, srcH: nat, width: nat, height: nat): seq<Rect>
    requires srcW > 0 && srcH > 0 && 0 <= c.x0 && 0 <= c.y0
  {
    if c.x1 <= c.x0 || c.y1 <= c.y0 then [] else [Stretched(c, srcW, srcH, width, height)]
  }

  function Mapped(dirty: seq<Rect>, source: Rect, width: nat, height: nat): seq<Rect>
    requires Proper(source)
  {
    if dirty == [] then []
    else
      var n := |dirty| - 1;
      Mapped(dirty[..n], source, width, height)
      + MappedOne(ClipDirty(dirty[n], source), source.x1 - source.x0, source.y1 - source.y0, width, height)
  }

  lemma MappedStep(dirty: seq<Rect>, i: nat, source: Rect, width: nat, height: nat)
    requires Proper(source) && i < |dirty|
    ensures Mapped(dirty[..i + 1], source, width, height) ==
            Mapped(dirty[..i], source, width, height)
            + MappedOne(ClipDirty(dirty[i], source), source.x1 - source.x0, source.y1 - source.y0, width, height)
  {
    assert dirty[..i + 1][..i] == dirty[..i];
  }

  /** `output_damage_add_surface_dirty_rects` for a stretched surface: afterwards
      every output pixel that mixes in a dirty texel is damaged, and the damage
      reaches no further than the mapped rectangles; with no source to speak of,
      the whole output is damaged. */
  method DamageStretched(damage: OutputDamage, source: Rect, dirty: seq<Rect>)
    requires damage.ListValid() && damage.width > 0 && damage.height > 0
    modifies damage`valid, damage`coarse, damage`count, damage`bounds, damage.rects
    ensures damage.ListValid() && Grows(old(damage.List()), damage.List())
    ensures !Proper(source) ==> forall p :: Contains(damage.Output(), p) ==> Covered(damage.List(), p)
    ensures Proper(source) ==>
              forall i, p :: 0 <= i < |dirty| && Contains(damage.Output(), p) &&
                           Samples(p, ClipDirty(dirty[i], source), source.x1 - source.x0, source.y1 - source.y0,
                                   damage.width, damage.height)
                           ==> Covered(damage.List(), p)
    ensures Proper(source) ==>
              && NoMoreThan(old(damage.valid), old(damage.bounds), damage.valid, damage.bounds,
                            Mapped(dirty, source, damage.width, damage.height))
              && forall p :: Contains(damage.Output(), p) && Covered(Mapped(dirty, source, damage.width, damage.height), p) ==>
                             Covered(damage.List(), p)
  {
    var srcW, srcH := source.x1 - source.x0, source.y1 - source.y0;
    if srcW <= 0 || srcH <= 0 {
      damage.AddFull();
      return;
    }
    for i := 0 to |dirty|
      invariant damage.ListValid() && Grows(old(damage.List()), damage.List())
      invariant forall p :: Contains(damage.Output(), p) && Covered(Mapped(dirty[..i], source, damage.width, damage.height), p)
                            ==> Covered(damage.List(), p)
      invariant NoMoreThan(old(damage.valid), old(damage.bounds), damage.valid, damage.bounds,
                           Mapped(dirty[..i], source, damage.width, damage.height))
    {
      ghost var done := Mapped(dirty[..i], source, damage.width, damage.height);
      var c := ClipDirty(dirty[i], source);
      MappedStep(dirty, i, source, damage.width, damage.height);
      if c.x1 <= c.x0 || c.y1 <= c.y0 {
        assert done + [] == done;
        continue;
      }
      AddMapped(damage, Stretched(c, srcW, srcH, damage.width, damage.height), done, old(damage.valid), old(damage.bounds));
    }
    assert dirty[..|dirty|] == dirty;
    forall i, p | 0 <= i < |dirty| && Contains(damage.Output(), p) &&
                  Samples(p, ClipDirty(dirty[i], source), srcW, srcH, damage.width, damage.height)
      ensures Covered(damage.List(), p)
    {
      MappedCovers(dirty, i, source, damage.width, damage.height, p);
    }
  }

  /** One more rectangle on top of the rectangles `done`. */
  method AddMapped(damage: OutputDamage, r: Rect, ghost done: seq<Rect>, ghost was: bool, ghost box: Rect)
    requires damage.ListValid() && NoMoreThan(was, box, damage.valid, damage.bounds, done)
    requires forall p :: Contains(damage.Output(), p) && Covered(done, p) ==> Covered(damage.List(), p)
    modifies damage`valid, damage`coarse, damage`count, damage`bounds, damage.rects
    ensures damage.ListValid() && Grows(old(damage.List()), damage.List())
    ensures forall p :: Contains(damage.Output(), p) && Covered(done + [r], p) ==> Covered(damage.List(), p)
    ensures NoMoreThan(was, box, damage.valid, damage.bounds, done + [r])
  {
    ghost var had, around := damage.valid, damage.bounds;
    damage.AddPx(r.x0, r.y0, r.x1 - r.x0, r.y1 - r.y0);
    forall p | Contains(damage.Output(), p) && Covered(done + [r], p)
      ensures Covered(damage.List(), p)
    {
      CoveredConcat(done, [r], p);
      assert Covered([r], p) <==> Contains([r][0], p);
    }
    assert NoMoreThan(had, around, damage.valid, damage.bounds, [r]) by {
      assert forall outer :: AllWithin([r], outer) ==> Within([r][0], outer);
    }
    NoMoreTwice(was, box, had, around, damage.valid, damage.bounds, done, [r]);
  }

  /** Every output pixel that mixes in a dirty texel lies in a mapped rectangle. */
  lemma {:induction false} MappedCovers(dirty: seq<Rect>, i: nat, source: Rect, width: nat, height: nat, p: Point)
    requires Proper(source) && width > 0 && height > 0 && i < |dirty| && Contains(Rect(0, 0, width, height), p)
    requires Samples(p, ClipDirty(dirty[i], source), source.x1 - source.x0, source.y1 - source.y0, width, height)
    ensures Covered(Mapped(dirty, source, width, height), p)
  {
    var n := |dirty| - 1;
    var srcW, srcH := source.x1 - source.x0, source.y1 - source.y0;
    var front := Mapped(dirty[..n], source, width, height);
    var last := MappedOne(ClipDirty(dirty[n], source), srcW, srcH, width, height);
    CoveredConcat(front, last, p);
    if i < n {
      MappedCovers(dirty[..n], i, source, width, height, p);
    } else {
      OneCovers(ClipDirty(dirty[n], source), srcW, srcH, width, height, p);
    }
  }

  lemma OneCovers(c: Rect, srcW: nat, srcH: nat, width: nat, height: nat, p: Point)
    requires srcW > 0 && srcH > 0 && width > 0 && height > 0 && Contains(Rect(0, 0, width, height), p)
    requires 0 <= c.x0 && 0 <= c.y0 && c.x1 <= srcW && c.y1 <= srcH
    requires Samples(p, c, srcW, srcH, width, height)
    ensures Covered(MappedOne(c, srcW, srcH, width, height), p)
  {
    StretchedCovers(p, c, srcW, srcH, width, height);
    assert Contains(MappedOne(c, srcW, srcH, width, height)[0], p);
  }
}
