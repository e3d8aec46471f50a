/** The palette between a background and a foreground colour: one integer step per channel. */
module Gradient {
  import opened Arith

  /** Weight of the channel at byte offset `off` in a colour. */
  function Weight(off: nat): nat {
    Pow2(8 * off)
  }

  function Channel(color: nat, off: nat): (c: nat)
    ensures c < 256
    ensures off == 0 ==> c == color % 0x100
    ensures off == 1 ==> c == color / 0x100 % 0x100
    ensures off == 2 ==> c == color / 0x10000 % 0x100
  {
    Weights();
    color / Weight(off) % 256
  }

  lemma Weights()
    ensures Weight(0) == 1 && Weight(1) == 0x100 && Weight(2) == 0x10000 && Weight(3) == 0x1000000
  {
    Pow2Values();
    WeightStep(0);
    WeightStep(1);
    WeightStep(2);
  }

  /** Entry i of the channel, before the clamp at 0xFF; `last` is the index of the foreground. */
  function Shade(fg: nat, bg: nat, last: nat, i: nat): int
    requires last >= 1
  {
    if fg > bg then bg + i * StepSize(fg, bg, last) else fg + (last - i) * StepSize(fg, bg, last)
  }

  function StepSize(fg: nat, bg: nat, last: nat): nat
    requires last >= 1
  {
    (Max(fg, bg) - Min(fg, bg) + 1) / last
  }

  /** A channel of the palette: end points exact, in between the integer steps. */
  function Tone(fg: nat, bg: nat, last: nat, i: nat): int
    requires last >= 1
  {
    if i == 0 then bg else if i >= last then fg else Shade(fg, bg, last, i)
  }

  /** The channel of an inner entry: i steps away from the background or last - i from the foreground, each
      step being the whole part of the range divided by the number of steps. */
  ghost predicate IsStepped(fg: nat, bg: nat, last: nat, i: nat, c: int) {
    exists step: nat :: OfStep(fg, bg, last, i, c, step)
  }

  ghost predicate OfStep(fg: nat, bg: nat, last: nat, i: nat, c: int, step: nat) {
    && step * last <= (if fg > bg then fg - bg else bg - fg) + 1 < (step + 1) * last
    && c == if fg > bg then bg + i * step else fg + (last - i) * step
  }

  lemma ToneIsStepped(fg: nat, bg: nat, last: nat, i: nat)
    requires last >= 2 && 0 < i < last
    ensures IsStepped(fg, bg, last, i, Tone(fg, bg, last, i))
  {
    assert OfStep(fg, bg, last, i, Tone(fg, bg, last, i), StepSize(fg, bg, last));
  }

  lemma StepsFit(range: nat, last: nat, i: nat, j: nat)
    requires range >= 1 && last >= 2 && i <= j < last
    ensures 0 <= i * (range / last) <= j * (range / last) <= range - 1
  {
    var step := range / last;
    assert last * step <= range;
    assert (last - 1) * step == last * step - step;
    MulMono(0, i, step);
    MulMono(i, j, step);
    MulMono(j, last - 1, step);
  }

  /** Shades run from the background towards the foreground and never pass it. */
  lemma ShadesAreOrdered(fg: nat, bg: nat, last: nat, i: nat, j: nat)
    requires last >= 2 && 0 < i <= j < last
    ensures bg <= fg ==> bg <= Shade(fg, bg, last, i) <= Shade(fg, bg, last, j) <= fg
    ensures bg >= fg ==> bg >= Shade(fg, bg, last, i) >= Shade(fg, bg, last, j) >= fg
  {
    var range := Max(fg, bg) - Min(fg, bg) + 1;
    if fg > bg {
      StepsFit(range, last, i, j);
    } else {
      StepsFit(range, last, last - j, last - i);
    }
  }

  /** Every tone lies between the background and any later tone, and every tone lies between any
      earlier one and the foreground: the channel never turns back and never overshoots. */
  lemma ToneIsMonotone(fg: nat, bg: nat, last: nat, i: nat, j: nat)
    requires last >= 2 && i <= j <= last
    ensures Between(bg, Tone(fg, bg, last, i), Tone(fg, bg, last, j))
    ensures Between(Tone(fg, bg, last, i), Tone(fg, bg, last, j), fg)
  {
    if i == 0 || i == last {
      ToneIsInside(fg, bg, last, j);
    } else if j == last {
      ToneIsInside(fg, bg, last, i);
    } else {
      ShadesAreOrdered(fg, bg, last, i, j);
    }
  }

  lemma ToneIsInside(fg: nat, bg: nat, last: nat, i: nat)
    requires last >= 2 && i <= last
    ensures Between(bg, Tone(fg, bg, last, i), fg)
  {
    if 0 < i < last {
      ShadesAreOrdered(fg, bg, last, i, i);
    }
  }

  /** The clamp at 0xFF never acts. */
  lemma ShadeFits(fg: nat, bg: nat, last: nat, i: nat)
    requires last >= 2 && 0 < i < last && fg < 256 && bg < 256
    ensures 0 <= Shade(fg, bg, last, i) < 256
  {
    ShadesAreOrdered(fg, bg, last, i, i);
  }

  /** A channel value. */
  type Level = c: nat | c < 256

  /** Channel values packed into one number, lowest byte first. */
  function Pack(levels: seq<Level>): (c: nat)
    ensures c < Weight(|levels|)
  {
    if |levels| == 0 then 0
    else
      var top := |levels| - 1;
      WeightStep(top);
      MulMono(levels[top], 255, Weight(top));
      Pack(levels[..top]) + levels[top] * Weight(top)
  }

  lemma WeightStep(off: nat)
    ensures Weight(off + 1) == 256 * Weight(off)
  {
    Pow2Plus8(8 * off);
  }

  lemma Pow2Plus8(k: nat)
    ensures Pow2(k + 8) == 256 * Pow2(k)
  {
    assert Pow2(k + 2) == 4 * Pow2(k);
    assert Pow2(k + 4) == 4 * Pow2(k + 2);
    assert Pow2(k + 6) == 4 * Pow2(k + 4);
    assert Pow2(k + 8) == 4 * Pow2(k + 6);
  }

  /** Unpacking a channel gives it back: the fields do not carry into each other. */
  lemma {:induction false} PackChannel(levels: seq<Level>, o: nat)
    requires o < |levels|
    ensures Channel(Pack(levels), o) == levels[o]
    decreases |levels|
  {
    var top := |levels| - 1;
    var low := Pack(levels[..top]);
    if o == top {
      DivModUnique(levels[top], low, Weight(top));
    } else {
      PackChannel(levels[..top], o);
      HigherFieldsDoNotShow(low, levels[top], top, o);
    }
  }

  lemma HigherFieldsDoNotShow(low: nat, high: nat, off: nat, o: nat)
    requires o < off
    ensures Channel(low + high * Weight(off), o) == Channel(low, o)
  {
    var k := WeightMultiple(off, o);
    Regroup(high, k, Weight(o));
    hide Weight;
    DivByAdding(low, 256 * (high * k), Weight(o));
    ModShift(low / Weight(o), high * k);
  }

  lemma Regroup(a: nat, k: nat, w: nat)
    ensures a * (256 * k * w) == (256 * (a * k)) * w
  {
    calc {
      a * (256 * k * w);
      == { assert 256 * k * w == 256 * (k * w); }
      a * (256 * (k * w));
      256 * (a * (k * w));
      256 * ((a * k) * w);
    }
  }

  lemma DivByAdding(n: nat, m: nat, w: nat)
    requires w > 0
    ensures (n + m * w) / w == m + n / w
  {
    var q, r := n / w, n % w;
    assert n == q * w + r;
    assert (m + q) * w == m * w + q * w;
    DivModUnique(m + q, r, w);
  }

  lemma ModShift(q: nat, m: nat)
    ensures (256 * m + q) % 256 == q % 256
  {
  }

  lemma {:induction false} WeightMultiple(off: nat, o: nat) returns (k: nat)
    requires o < off
    ensures Weight(off) == 256 * k * Weight(o)
    decreases off
  {
    WeightStep(off - 1);
    if o == off - 1 {
      k := 1;
    } else {
      var k' := WeightMultiple(off - 1, o);
      k := 256 * k';
      calc {
        Weight(off);
        256 * (256 * k' * Weight(o));
        256 * (256 * k') * Weight(o);
      }
    }
  }

  /** Or-ing one more channel into a packed colour adds it on top. */
  lemma OrPacks(levels: seq<Level>, level: Level)
    ensures BitOr(Pack(levels), level * Weight(|levels|)) == Pack(levels + [level])
  {
    BitOrDisjoint(Pack(levels), level, 8 * |levels|);
    assert (levels + [level])[..|levels|] == levels;
  }

  /** The first `off` channels of palette entry i. */
  function Shades(fg: nat, bg: nat, last: nat, i: nat, off: nat): (levels: seq<Level>)
    requires last >= 2 && 0 < i < last
    ensures |levels| == off
    ensures forall o :: 0 <= o < off ==> levels[o] == Shade(Channel(fg, o), Channel(bg, o), last, i)
  {
    if off == 0 then []
    else
      ShadeFits(Channel(fg, off - 1), Channel(bg, off - 1), last, i);
      Shades(fg, bg, last, i, off - 1) + [Shade(Channel(fg, off - 1), Channel(bg, off - 1), last, i)]
  }

  /** The palette without its last entry, after the first `off` channels. */
  function Entries(fg: nat, bg: nat, last: nat, off: nat): (entries: seq<nat>)
    requires last >= 2
    ensures |entries| == last
  {
    seq(last, i requires 0 <= i < last => if i == 0 then bg else Pack(Shades(fg, bg, last, i, off)))
  }

  /** One iteration of the inner loop: the channel is clamped, shifted and or-ed in. */
  lemma OrShade(fg: nat, bg: nat, last: nat, i: nat, off: nat, level: int)
    requires last >= 2 && 0 < i < last && level == Shade(Channel(fg, off), Channel(bg, off), last, i)
    ensures 0 <= level < 256 && Min(0xFF, level) * Weight(off) >= 0
    ensures BitOr(Entries(fg, bg, last, off)[i], Min(0xFF, level) * Weight(off)) == Entries(fg, bg, last, off + 1)[i]
  {
    ShadeFits(Channel(fg, off), Channel(bg, off), last, i);
    MulMono(0, level, Weight(off));
    OrPacks(Shades(fg, bg, last, i, off), level);
  }

  lemma EntriesAreTones(fg: nat, bg: nat, last: nat, i: nat, off: nat)
    requires last >= 2 && 0 < i < last && off < 3
    ensures Channel(Entries(fg, bg, last, 3)[i], off) == Tone(Channel(fg, off), Channel(bg, off), last, i)
    ensures Entries(fg, bg, last, 3)[i] < Weight(3)
  {
    PackChannel(Shades(fg, bg, last, i, 3), off);
  }

  /** The palette of a font or glyph with the given number of bits per pixel. */
  method ComputeColors(fgColor: nat, bgColor: nat, bpp: nat) returns (colors: seq<nat>)
    ensures bpp <= 1 ==> colors == [bgColor, fgColor]
    ensures bpp >= 2 ==> |colors| == Pow2(bpp) && colors[0] == bgColor && colors[|colors| - 1] == fgColor
    ensures bpp >= 2 ==> forall i, off :: 0 < i < |colors| - 1 && 0 <= off < 3 ==>
      Channel(colors[i], off) == Tone(Channel(fgColor, off), Channel(bgColor, off), |colors| - 1, i)
    ensures bpp >= 2 ==> forall i :: 0 < i < |colors| - 1 ==> colors[i] < 0x1000000
    ensures bpp >= 2 ==> forall i, off :: 0 < i < |colors| - 1 && 0 <= off < 3 ==>
      IsStepped(Channel(fgColor, off), Channel(bgColor, off), |colors| - 1, i, Channel(colors[i], off))
  {
    if bpp <= 1 {
      return [bgColor, fgColor];
    }
    var colorCount := Pow2(bpp) - 1;
    assert Pow2(bpp) == 4 * Pow2(bpp - 2);
    colors := [bgColor] + seq(colorCount - 1, _ => 0);
    assert colors == Entries(fgColor, bgColor, colorCount, 0);
    hide Entries, Channel, Tone, IsStepped, Pow2, Weight;
    for off := 0 to 3
      invariant colors == Entries(fgColor, bgColor, colorCount, off)
    {
      colors := AddChannel(fgColor, bgColor, colorCount, off, colors);
    }
    FinishedEntries(fgColor, bgColor, colorCount);
    colors := colors + [fgColor];
  }

  /** What the inner entries have become. */
  lemma FinishedEntries(fg: nat, bg: nat, last: nat)
    requires last >= 2
    ensures Entries(fg, bg, last, 3)[0] == bg
    ensures forall i, off :: 0 < i < last && 0 <= off < 3 ==>
      && Channel(Entries(fg, bg, last, 3)[i], off) == Tone(Channel(fg, off), Channel(bg, off), last, i)
      && IsStepped(Channel(fg, off), Channel(bg, off), last, i, Channel(Entries(fg, bg, last, 3)[i], off))
    ensures forall i :: 0 < i < last ==> Entries(fg, bg, last, 3)[i] < 0x1000000
  {
    Weights();
    assert Entries(fg, bg, last, 3)[0] == bg;
    hide Entries, Channel, Tone, IsStepped, Weight;
    forall i, off | 0 < i < last && 0 <= off < 3
      ensures Channel(Entries(fg, bg, last, 3)[i], off) == Tone(Channel(fg, off), Channel(bg, off), last, i)
      ensures IsStepped(Channel(fg, off), Channel(bg, off), last, i, Channel(Entries(fg, bg, last, 3)[i], off))
    {
      EntriesAreTones(fg, bg, last, i, off);
      ToneIsStepped(Channel(fg, off), Channel(bg, off), last, i);
    }
    forall i | 0 < i < last
      ensures Entries(fg, bg, last, 3)[i] < 0x1000000
    {
      EntriesAreTones(fg, bg, last, i, 0);
    }
  }

  /** The body of the channel loop: or one more channel into every inner entry. */
  method AddChannel(fgColor: nat, bgColor: nat, colorCount: nat, off: nat, entries: seq<nat>)
      returns (colors: seq<nat>)
    requires colorCount >= 2 && entries == Entries(fgColor, bgColor, colorCount, off)
    ensures colors == Entries(fgColor, bgColor, colorCount, off + 1)
  {
    colors := entries;
    ghost var done := Entries(fgColor, bgColor, colorCount, off + 1);
    FirstEntry(fgColor, bgColor, colorCount, off);
    var cfg := Channel(fgColor, off);
    var cbg := Channel(bgColor, off);
    var crange := Max(cfg, cbg) - Min(cfg, cbg) + 1;
    var cinc := crange / colorCount;
    assert cinc == StepSize(cfg, cbg, colorCount);
    hide Entries, Channel, Weight, BitOr, Pow2, StepSize;
    if cfg > cbg {
      for i := 1 to colorCount
        invariant colors == done[..i] + entries[i..]
      {
        var level := cbg + i * cinc;
        colors := OrInto(fgColor, bgColor, colorCount, off, i, level, colors, entries);
      }
    } else {
      for i := 1 to colorCount
        invariant colors == done[..i] + entries[i..]
      {
        var level := cfg + (colorCount - i) * cinc;
        colors := OrInto(fgColor, bgColor, colorCount, off, i, level, colors, entries);
      }
    }
  }

  lemma FirstEntry(fg: nat, bg: nat, last: nat, off: nat)
    requires last >= 2
    ensures Entries(fg, bg, last, off)[0] == Entries(fg, bg, last, off + 1)[0]
  {
  }

  /** The channel of one entry. */
  method OrInto(fgColor: nat, bgColor: nat, colorCount: nat, off: nat, i: nat, level: int,
                before: seq<nat>, ghost entries: seq<nat>) returns (colors: seq<nat>)
    requires colorCount >= 2 && 0 < i < colorCount && entries == Entries(fgColor, bgColor, colorCount, off)
    requires before == Entries(fgColor, bgColor, colorCount, off + 1)[..i] + entries[i..]
    requires level == Shade(Channel(fgColor, off), Channel(bgColor, off), colorCount, i)
    ensures colors == Entries(fgColor, bgColor, colorCount, off + 1)[..i + 1] + entries[i + 1..]
  {
    hide Entries, Shade, Channel, Weight, BitOr, Pow2;
    ghost var done := Entries(fgColor, bgColor, colorCount, off + 1);
    OrShade(fgColor, bgColor, colorCount, i, off, level);
    assert before[i] == entries[i];
    var or := BitOr(before[i], Min(0xFF, level) * Weight(off));
    colors := before[i := or];
    assert or == done[i];
    hide Min;
    OneMoreEntry(done, entries, i);
  }

  lemma OneMoreEntry(done: seq<nat>, entries: seq<nat>, i: nat)
    requires |done| == |entries| && i < |done|
    ensures (done[..i] + entries[i..])[i := done[i]] == done[..i + 1] + entries[i + 1..]
  {
  }
}
