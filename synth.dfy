/** The integer side of the signal synthesiser: one-second sample templates
    with a silent prefix whose length encodes the bit, and the one-minute
    buffer that places a template in each second's slot. Sample values are
    kept abstract: `tone(i)` stands for the quantised sine at sample i. */
module Synth {
  import opened Bits
  import opened Frame

  /** `ampMod` of `ZERO`, `ONE` and `END`: the fraction of the second that
      is silent. */
  const ZeroAmpMod: real := 0.1
  const OneAmpMod: real := 0.2
  const EndAmpMod: real := 0.0

  /** `i / sampleRate < ampMod`: sample i falls in the silent prefix. */
  predicate Silent(i: nat, sampleRate: nat, ampMod: real)
    requires sampleRate > 0
  {
    (i as real) / (sampleRate as real) < ampMod
  }

  /** Number of silent samples for `ampMod = tenths / 10`: the ceiling of
      `tenths * sampleRate / 10`. */
  function Notch(sampleRate: nat, tenths: nat): nat
  {
    (tenths * sampleRate + 9) / 10
  }

  /** Sample i of a second built by `createSecond`. */
  function Sample(i: nat, sampleRate: nat, ampMod: real, tone: nat -> real): real
    requires sampleRate > 0
  {
    if Silent(i, sampleRate, ampMod) then 0.0 else tone(i)
  }

  /** The samples `createSecond(freq, ampMod)` returns. */
  function SecondWave(sampleRate: nat, ampMod: real, tone: nat -> real): (w: seq<real>)
    ensures |w| == sampleRate
  {
    seq(sampleRate, i requires 0 <= i < sampleRate => Sample(i, sampleRate, ampMod, tone))
  }

  /** `createSecond`: one second of samples, silent while `i / sampleRate`
      is below `ampMod`, the tone afterwards. */
  method CreateSecond(sampleRate: nat, ampMod: real, tone: nat -> real) returns (second: array<real>)
    ensures fresh(second)
    ensures second.Length == sampleRate
    ensures second[..] == SecondWave(sampleRate, ampMod, tone)
  {
    second := new real[sampleRate];
    for i := 0 to sampleRate
      invariant forall k :: 0 <= k < i ==> second[k] == Sample(k, sampleRate, ampMod, tone)
    {
      if (i as real) / (sampleRate as real) < ampMod {
        second[i] := 0.0;
      } else {
        second[i] := tone(i);
      }
    }
  }

  /** With `ampMod = tenths / 10`, the silent samples are exactly the first
      `Notch(sampleRate, tenths)` ones. */
  lemma SilentPrefix(i: nat, sampleRate: nat, tenths: nat)
    requires sampleRate > 0
    ensures Silent(i, sampleRate, tenths as real / 10.0) <==> i < Notch(sampleRate, tenths)
  {
    var sr := sampleRate as real;
    var x := (i as real) / sr;
    assert x * sr == i as real;
    var p := tenths * sampleRate;
    assert (tenths as real / 10.0) * sr == (p as real) / 10.0;
    if x < tenths as real / 10.0 {
      assert x * sr < (tenths as real / 10.0) * sr;
      assert 10 * i < p;
    } else {
      assert x * sr >= (tenths as real / 10.0) * sr;
      assert 10 * i >= p;
    }
  }

  /** A template with a silent tenth-count: `sampleRate` samples, zero
      before the notch and the tone from the notch on. */
  lemma TemplateShape(sampleRate: nat, tenths: nat, tone: nat -> real)
    requires tenths <= 10
    ensures Notch(sampleRate, tenths) <= sampleRate
    ensures |SecondWave(sampleRate, tenths as real / 10.0, tone)| == sampleRate
    ensures forall i :: 0 <= i < sampleRate ==>
      SecondWave(sampleRate, tenths as real / 10.0, tone)[i] ==
        (if i < Notch(sampleRate, tenths) then 0.0 else tone(i))
  {
    var w := SecondWave(sampleRate, tenths as real / 10.0, tone);
    forall i | 0 <= i < sampleRate
      ensures w[i] == (if i < Notch(sampleRate, tenths) then 0.0 else tone(i))
    {
      SilentPrefix(i, sampleRate, tenths);
    }
  }

  /** `ZERO` is silent for the first tenth of the second, `ONE` for the
      first fifth, and `END` not at all. */
  lemma TemplateNotches(sampleRate: nat, tone: nat -> real)
    ensures ZeroAmpMod == 1 as real / 10.0 && OneAmpMod == 2 as real / 10.0
    ensures EndAmpMod == 0 as real / 10.0
    ensures Notch(sampleRate, 0) == 0
    ensures Notch(sampleRate, 1) <= Notch(sampleRate, 2) <= sampleRate
    ensures 10 <= sampleRate ==> Notch(sampleRate, 1) < Notch(sampleRate, 2)
    ensures sampleRate % 10 == 0 ==>
      Notch(sampleRate, 1) == sampleRate / 10 && Notch(sampleRate, 2) == 2 * (sampleRate / 10)
    ensures SecondWave(sampleRate, EndAmpMod, tone) == seq(sampleRate, i requires 0 <= i < sampleRate => tone(i))
  {
    TemplateShape(sampleRate, 0, tone);
  }

  /** `ZERO` and `ONE` agree except on the samples between their notches,
      where `ZERO` already carries the tone and `ONE` is still silent. */
  lemma ZeroOneDiffer(sampleRate: nat, tone: nat -> real, i: nat)
    requires i < sampleRate
    ensures Notch(sampleRate, 1) <= i < Notch(sampleRate, 2) ==>
      SecondWave(sampleRate, ZeroAmpMod, tone)[i] == tone(i) &&
      SecondWave(sampleRate, OneAmpMod, tone)[i] == 0.0
    ensures !(Notch(sampleRate, 1) <= i < Notch(sampleRate, 2)) ==>
      SecondWave(sampleRate, ZeroAmpMod, tone)[i] == SecondWave(sampleRate, OneAmpMod, tone)[i]
  {
    TemplateNotches(sampleRate, tone);
    TemplateShape(sampleRate, 1, tone);
    TemplateShape(sampleRate, 2, tone);
  }

  // ---------------------------------------------------------------------
  // The minute buffer.

  /** The three templates as sample sequences. */
  datatype Templates = Templates(zero: seq<real>, one: seq<real>, end: seq<real>)

  predicate Fits(templates: Templates, sampleRate: nat)
  {
    |templates.zero| == sampleRate && |templates.one| == sampleRate && |templates.end| == sampleRate
  }

  /** The templates `createSecond` makes for `ZERO`, `ONE` and `END`. */
  function Waves(sampleRate: nat, tone: nat -> real): (templates: Templates)
    ensures Fits(templates, sampleRate)
  {
    Templates(SecondWave(sampleRate, ZeroAmpMod, tone), SecondWave(sampleRate, OneAmpMod, tone),
      SecondWave(sampleRate, EndAmpMod, tone))
  }

  function Silence(n: nat): seq<real>
  {
    seq(n, _ => 0.0)
  }

  /** The characters `createMinute` writes a template for. */
  predicate IsSymbol(c: char)
  {
    c == '0' || c == '1' || c == EndMarker
  }

  /** The samples of second i of the minute: the template of the frame's
      character, or the zeros the buffer starts with when the character is
      not a symbol or the frame is shorter. */
  function SlotOf(frame: string, i: nat, sampleRate: nat, templates: Templates): (slot: seq<real>)
    ensures Fits(templates, sampleRate) ==> |slot| == sampleRate
    ensures !(i < |frame| && IsSymbol(frame[i])) ==> slot == Silence(sampleRate)
  {
    if i < |frame| && frame[i] == '0' then templates.zero
    else if i < |frame| && frame[i] == '1' then templates.one
    else if i < |frame| && frame[i] == EndMarker then templates.end
    else Silence(sampleRate)
  }

  /** `sampleRate * n`, the offset of slot n, built up by repeated addition
      so that the slot arithmetic stays linear. */
  function Span(sampleRate: nat, n: nat): nat
  {
    if n == 0 then 0 else Span(sampleRate, n - 1) + sampleRate
  }

  lemma {:induction false} SpanIsProduct(sampleRate: nat, n: nat)
    ensures Span(sampleRate, n) == sampleRate * n
  {
    if n > 0 {
      SpanIsProduct(sampleRate, n - 1);
      assert sampleRate * n == sampleRate * (n - 1) + sampleRate;
    }
  }

  /** Slot i ends no later than slot n starts, for i < n. */
  lemma {:induction false} SpanMonotone(sampleRate: nat, i: nat, n: nat)
    requires i < n
    ensures Span(sampleRate, i) + sampleRate <= Span(sampleRate, n)
    ensures Span(sampleRate, i + 1) <= Span(sampleRate, n)
  {
    if i < n - 1 {
      SpanMonotone(sampleRate, i, n - 1);
    }
  }

  lemma {:induction false} SpanAdd(sampleRate: nat, a: nat, b: nat)
    ensures Span(sampleRate, a + b) == Span(sampleRate, a) + Span(sampleRate, b)
  {
    if b > 0 {
      SpanAdd(sampleRate, a, b - 1);
    }
  }

  /** The first n slots, one after another. */
  function Slots(frame: string, sampleRate: nat, templates: Templates, n: nat): (s: seq<real>)
    requires Fits(templates, sampleRate)
    ensures |s| == Span(sampleRate, n)
  {
    if n == 0 then []
    else Slots(frame, sampleRate, templates, n - 1) + SlotOf(frame, n - 1, sampleRate, templates)
  }

  /** The buffer `createMinute` returns for a frame. */
  function MinuteSpec(frame: string, sampleRate: nat, templates: Templates): seq<real>
    requires Fits(templates, sampleRate)
  {
    Slots(frame, sampleRate, templates, 60)
  }

  /** Sample j of slot i lies at offset `sampleRate * i + j`. */
  lemma {:induction false} SlotAt(frame: string, sampleRate: nat, templates: Templates, n: nat, i: nat, j: nat)
    requires Fits(templates, sampleRate) && i < n && j < sampleRate
    ensures Span(sampleRate, i) + j < |Slots(frame, sampleRate, templates, n)|
    ensures Slots(frame, sampleRate, templates, n)[Span(sampleRate, i) + j] == SlotOf(frame, i, sampleRate, templates)[j]
    decreases n
  {
    var prefix := Slots(frame, sampleRate, templates, n - 1);
    assert Slots(frame, sampleRate, templates, n) == prefix + SlotOf(frame, n - 1, sampleRate, templates);
    if i < n - 1 {
      SlotAt(frame, sampleRate, templates, n - 1, i, j);
    }
  }

  /** Slots past the end of the frame are silent. */
  lemma {:induction false} SlotsBeyond(frame: string, sampleRate: nat, templates: Templates, m: nat, n: nat)
    requires Fits(templates, sampleRate) && |frame| <= m <= n
    ensures Span(sampleRate, m) <= Span(sampleRate, n)
    ensures Slots(frame, sampleRate, templates, n) ==
      Slots(frame, sampleRate, templates, m) + Silence(Span(sampleRate, n) - Span(sampleRate, m))
    decreases n
  {
    if n > m {
      SlotsBeyond(frame, sampleRate, templates, m, n - 1);
      SpanMonotone(sampleRate, m, n);
      if m < n - 1 {
        SpanMonotone(sampleRate, m, n - 1);
      }
      SilenceConcat(Span(sampleRate, n - 1) - Span(sampleRate, m), sampleRate);
    }
  }

  lemma SilenceConcat(a: nat, b: nat)
    ensures Silence(a + b) == Silence(a) + Silence(b)
  {
  }

  /** `TypedArray.prototype.set(source, offset)`: copies source into
      target from offset on; the source is read first, so an alias of the
      target is copied as it was. */
  method SetAt(target: array<real>, source: array<real>, offset: nat)
    requires offset + source.Length <= target.Length
    modifies target
    ensures target[..] ==
      old(target[..offset]) + old(source[..]) + old(target[offset + source.Length..])
  {
    var src := source[..];
    ghost var before := target[..];
    for j := 0 to |src|
      invariant target[..offset] == before[..offset]
      invariant target[offset..offset + j] == src[..j]
      invariant target[offset + |src|..] == before[offset + |src|..]
    {
      target[offset + j] := src[j];
      assert target[offset..offset + j + 1] == target[offset..offset + j] + [src[j]];
    }
    assert target[..] == target[..offset] + target[offset..offset + |src|] + target[offset + |src|..];
  }

  function Min(a: nat, b: nat): nat { if a <= b then a else b }

  /** `createMinute`: a zeroed buffer of `sampleRate * 60` samples in which
      slot i holds the template of the frame's i-th character. `set`
      throws a RangeError for a symbol at index 60 or later, so the frame
      must have none there. */
  method CreateMinute(frame: string, sampleRate: nat, zero: array<real>, one: array<real>, end: array<real>)
    returns (minute: array<real>)
    requires zero.Length == sampleRate && one.Length == sampleRate && end.Length == sampleRate
    requires forall i :: 0 <= i < |frame| && IsSymbol(frame[i]) ==> i < 60 || sampleRate == 0
    ensures fresh(minute)
    ensures minute.Length == sampleRate * 60
    ensures minute[..] == MinuteSpec(frame, sampleRate, Templates(zero[..], one[..], end[..]))
  {
    ghost var templates := Templates(zero[..], one[..], end[..]);
    minute := new real[sampleRate * 60](_ => 0.0);
    SpanIsProduct(sampleRate, 60);
    for i := 0 to |frame|
      invariant minute.Length == Span(sampleRate, 60)
      invariant Span(sampleRate, Min(i, 60)) <= minute.Length
      invariant templates == Templates(zero[..], one[..], end[..])
      invariant minute[..Span(sampleRate, Min(i, 60))] == Slots(frame, sampleRate, templates, Min(i, 60))
      invariant forall k :: Span(sampleRate, Min(i, 60)) <= k < minute.Length ==> minute[k] == 0.0
    {
      if i < 60 {
        if i + 1 < 60 {
          SpanMonotone(sampleRate, i + 1, 60);
        }
        FillSlot(frame, sampleRate, templates, minute, zero, one, end, i);
      } else if IsSymbol(frame[i]) {
        // Only reachable with a sample rate of 0, where every template is empty.
        var template := if frame[i] == '0' then zero else if frame[i] == '1' then one else end;
        SetAt(minute, template, sampleRate * i);
      }
    }
    MinuteComplete(minute[..], frame, sampleRate, templates);
  }

  /** Once the frame is consumed, the slots after its end are the zeros
      the buffer started with. */
  lemma MinuteComplete(minute: seq<real>, frame: string, sampleRate: nat, templates: Templates)
    requires Fits(templates, sampleRate) && |minute| == Span(sampleRate, 60)
    requires Span(sampleRate, Min(|frame|, 60)) <= |minute|
    requires minute[..Span(sampleRate, Min(|frame|, 60))] == Slots(frame, sampleRate, templates, Min(|frame|, 60))
    requires forall k :: Span(sampleRate, Min(|frame|, 60)) <= k < |minute| ==> minute[k] == 0.0
    ensures minute == MinuteSpec(frame, sampleRate, templates)
  {
    var m := Min(|frame|, 60);
    if m < 60 {
      SlotsBeyond(frame, sampleRate, templates, m, 60);
      assert minute == minute[..Span(sampleRate, m)] + minute[Span(sampleRate, m)..];
    } else {
      assert minute == minute[..Span(sampleRate, m)];
    }
  }

  /** One step of `createMinute`'s `forEach`, for a slot inside the
      buffer. */
  method FillSlot(frame: string, sampleRate: nat, ghost templates: Templates, minute: array<real>,
                  zero: array<real>, one: array<real>, end: array<real>, i: nat)
    requires zero.Length == sampleRate && one.Length == sampleRate && end.Length == sampleRate
    requires templates == Templates(zero[..], one[..], end[..])
    requires minute != zero && minute != one && minute != end
    requires i < |frame| && i < 60
    requires minute.Length == Span(sampleRate, 60)
    requires Span(sampleRate, i + 1) <= minute.Length
    requires minute[..Span(sampleRate, i)] == Slots(frame, sampleRate, templates, i)
    requires forall k :: Span(sampleRate, i) <= k < minute.Length ==> minute[k] == 0.0
    modifies minute
    ensures minute[..Span(sampleRate, i + 1)] == Slots(frame, sampleRate, templates, i + 1)
    ensures forall k :: Span(sampleRate, i + 1) <= k < minute.Length ==> minute[k] == 0.0
  {
    var c := frame[i];
    ghost var slot := SlotOf(frame, i, sampleRate, templates);
    ghost var before := minute[..];
    SpanMonotone(sampleRate, i, 60);
    SpanIsProduct(sampleRate, i);
    var offset := sampleRate * i;
    assert Slots(frame, sampleRate, templates, i + 1) == Slots(frame, sampleRate, templates, i) + slot;
    if c == '0' || c == '1' || c == EndMarker {
      var template := if c == '0' then zero else if c == '1' then one else end;
      assert template[..] == slot;
      SetAt(minute, template, offset);
      assert minute[..offset + sampleRate] == before[..offset] + slot;
      forall k | offset + sampleRate <= k < minute.Length ensures minute[k] == 0.0 {
        assert minute[k] == minute[offset + sampleRate..][k - offset - sampleRate];
        assert before[k] == 0.0;
      }
    } else {
      assert minute[offset..offset + sampleRate] == Silence(sampleRate);
      assert minute[..offset + sampleRate] == minute[..offset] + minute[offset..offset + sampleRate];
    }
  }

  /** `minute.slice(seconds * sampleRate)`: playback from the start of
      second `seconds`; a start past the end gives an empty buffer. */
  function Playback(minute: seq<real>, sampleRate: nat, seconds: nat): (p: seq<real>)
    ensures |p| == if sampleRate * seconds <= |minute| then |minute| - sampleRate * seconds else 0
  {
    if sampleRate * seconds <= |minute| then minute[sampleRate * seconds..] else []
  }

  /** In a full minute, playback from second s starts at the offset of
      slot s. */
  lemma PlaybackStart(minute: seq<real>, sampleRate: nat, seconds: nat)
    requires |minute| == Span(sampleRate, 60) && seconds < 60
    ensures Span(sampleRate, seconds) <= |minute|
    ensures Playback(minute, sampleRate, seconds) == minute[Span(sampleRate, seconds)..]
  {
    SpanIsProduct(sampleRate, seconds);
    SpanMonotone(sampleRate, seconds, 60);
  }

  /** Started in second s, playback holds the remaining `60 - s` seconds,
      and its sample `sampleRate * k + j` is sample j of slot `s + k`. */
  lemma PlaybackAlignment(frame: string, sampleRate: nat, templates: Templates, seconds: nat, k: nat, j: nat)
    requires Fits(templates, sampleRate) && seconds < 60 && k < 60 - seconds && j < sampleRate
    ensures |Playback(MinuteSpec(frame, sampleRate, templates), sampleRate, seconds)| == Span(sampleRate, 60 - seconds)
    ensures Span(sampleRate, k) + j < Span(sampleRate, 60 - seconds)
    ensures Playback(MinuteSpec(frame, sampleRate, templates), sampleRate, seconds)[Span(sampleRate, k) + j] ==
      SlotOf(frame, seconds + k, sampleRate, templates)[j]
  {
    var minute := MinuteSpec(frame, sampleRate, templates);
    PlaybackStart(minute, sampleRate, seconds);
    SpanAdd(sampleRate, seconds, 60 - seconds);
    SpanAdd(sampleRate, seconds, k);
    SpanMonotone(sampleRate, k, 60 - seconds);
    SlotAt(frame, sampleRate, templates, 60, seconds + k, j);
  }

  /** Slot i of a well-formed frame holds `END` in the last second and
      `ONE` or `ZERO` by the bit before it. */
  lemma SlotOfFrame(f: string, sampleRate: nat, tone: nat -> real, i: nat)
    requires FrameShape(f) && i < 60
    ensures SlotOf(f, i, sampleRate, Waves(sampleRate, tone)) ==
      if i == 59 then SecondWave(sampleRate, EndAmpMod, tone)
      else if f[i] == '1' then SecondWave(sampleRate, OneAmpMod, tone)
      else SecondWave(sampleRate, ZeroAmpMod, tone)
  {
    if i < 59 {
      assert IsBit(f[i]) by {
        assert f[i] == f[..59][i];
      }
    }
  }

  /** Sample j of each template. */
  lemma TemplateSample(sampleRate: nat, tone: nat -> real, j: nat)
    requires j < sampleRate
    ensures SecondWave(sampleRate, ZeroAmpMod, tone)[j] == if j < Notch(sampleRate, 1) then 0.0 else tone(j)
    ensures SecondWave(sampleRate, OneAmpMod, tone)[j] == if j < Notch(sampleRate, 2) then 0.0 else tone(j)
    ensures SecondWave(sampleRate, EndAmpMod, tone)[j] == tone(j)
  {
    SilentPrefix(j, sampleRate, 1);
    SilentPrefix(j, sampleRate, 2);
    SilentPrefix(j, sampleRate, 0);
  }

  /** The buffer for the frame of t: every one of the 60 slots is filled,
      with a tenth of silence for a 0 bit, a fifth for a 1 bit, and the
      tone throughout the last second. */
  lemma MinuteOfTime(t: CivilTime, sampleRate: nat, tone: nat -> real, i: nat, j: nat)
    requires Valid(t) && i < 60 && j < sampleRate
    ensures Span(sampleRate, i) + j < Span(sampleRate, 60)
    ensures MinuteSpec(GenerateMinute(t), sampleRate, Waves(sampleRate, tone))[Span(sampleRate, i) + j] ==
      if i == 59 then tone(j)
      else if GenerateMinute(t)[i] == '1' then (if j < Notch(sampleRate, 2) then 0.0 else tone(j))
      else (if j < Notch(sampleRate, 1) then 0.0 else tone(j))
  {
    SlotAt(GenerateMinute(t), sampleRate, Waves(sampleRate, tone), 60, i, j);
    GeneratedShape(t);
    SlotOfFrame(GenerateMinute(t), sampleRate, tone, i);
    TemplateSample(sampleRate, tone, j);
  }
}
