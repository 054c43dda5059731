/** GIF bookkeeping: the minimum frame delay gathered while the GIF is loaded, the delay
    convert would report for a frame, and the frame loop of running that converts every
    frame and assembles the animation's source text. */
module Gif {
  import opened Colour
  import opened Palette
  import opened Raster
  import opened Resample
  import opened Grid
  import opened Convert

  // ---------------------------------------------------------------------------
  // Delays

  /** A GIF frame delay is in hundredths of a second; the converter keeps milliseconds. */
  function DelayMs(centiseconds: nat): nat {
    centiseconds * 10
  }

  /** gifMinDelay while it is being accumulated: it starts at Infinity. */
  datatype Bound = Infinity | Finite(n: nat)

  /** Math.min(bound, d) */
  function MinWith(bound: Bound, d: nat): (b: Bound)
    ensures b.Finite? && b.n <= d
    ensures bound.Finite? ==> b.n <= bound.n && (b.n == d || b.n == bound.n)
    ensures bound.Infinity? ==> b.n == d
  {
    match bound
    case Infinity => Finite(d)
    case Finite(n) => Finite(if d < n then d else n)
  }

  /** `delay || gifMinDelay` in convert: a zero delay is falsy and takes the fallback. */
  function ReportedDelay(delayMs: nat, gifMinDelay: nat): (d: nat)
    ensures delayMs != 0 ==> d == delayMs
    ensures delayMs == 0 ==> d == gifMinDelay
  {
    if delayMs != 0 then delayMs else gifMinDelay
  }

  /** gifMinDelay: the least frame delay in milliseconds, zero delays included; with no
      frames it stays Infinity and is then set to 0. Because zeros count, the fallback
      `delay || gifMinDelay` never replaces a frame's own delay. */
  method GifMinDelay(delays: seq<nat>) returns (gifMinDelay: nat)
    ensures |delays| == 0 ==> gifMinDelay == 0
    ensures forall i :: 0 <= i < |delays| ==> gifMinDelay <= DelayMs(delays[i])
    ensures |delays| > 0 ==> exists i :: 0 <= i < |delays| && gifMinDelay == DelayMs(delays[i])
    ensures forall i :: 0 <= i < |delays| ==> ReportedDelay(DelayMs(delays[i]), gifMinDelay) == DelayMs(delays[i])
  {
    var bound := Infinity;
    for i := 0 to |delays|
      invariant bound.Infinity? <==> i == 0
      invariant bound.Finite? ==> forall j :: 0 <= j < i ==> bound.n <= DelayMs(delays[j])
      invariant bound.Finite? ==> exists j :: 0 <= j < i && bound.n == DelayMs(delays[j])
    {
      bound := MinWith(bound, DelayMs(delays[i]));
    }
    gifMinDelay := if bound.Infinity? then 0 else bound.n;
  }

  // ---------------------------------------------------------------------------
  // Decimal numerals, as a template literal writes a non-negative integer

  function DecimalDigit(n: nat): (c: char)
    requires n < 10
    ensures '0' <= c <= '9' && c as int - '0' as int == n
  {
    "0123456789"[n]
  }

  function Decimal(n: nat): string
    decreases n
  {
    if n < 10 then [DecimalDigit(n)] else Decimal(n / 10) + [DecimalDigit(n % 10)]
  }

  predicate IsDecimal(s: string) {
    forall i :: 0 <= i < |s| ==> '0' <= s[i] <= '9'
  }

  /** The value of a string of decimal digits. */
  function DecimalValue(s: string): nat
    requires IsDecimal(s)
    decreases |s|
  {
    if |s| == 0 then 0 else DecimalValue(s[..|s| - 1]) * 10 + (s[|s| - 1] as int - '0' as int)
  }

  /** Decimal writes digits only, without a leading zero, and reading them back gives n. */
  lemma {:induction false} DecimalRoundTrip(n: nat)
    ensures |Decimal(n)| > 0 && IsDecimal(Decimal(n))
    ensures |Decimal(n)| > 1 ==> Decimal(n)[0] != '0'
    ensures DecimalValue(Decimal(n)) == n
    decreases n
  {
    if n >= 10 {
      DecimalRoundTrip(n / 10);
      var s := Decimal(n);
      assert s[..|s| - 1] == Decimal(n / 10);
    }
  }

  // ---------------------------------------------------------------------------
  // The animation's source text

  /** One line "  <item>,\n" per item, in order: what each forEach appends. */
  function Items(xs: seq<string>): string
    decreases |xs|
  {
    if |xs| == 0 then "" else Items(xs[..|xs| - 1]) + "  " + xs[|xs| - 1] + ",\n"
  }

  /** Appending one more item appends one more line. */
  lemma ItemsSnoc(xs: seq<string>, i: nat)
    requires i < |xs|
    ensures Items(xs[..i + 1]) == Items(xs[..i]) + "  " + xs[i] + ",\n"
  {
    assert xs[..i + 1][..i] == xs[..i];
  }

  lemma {:induction false} ItemsLength(xs: seq<string>, k: nat)
    requires forall i :: 0 <= i < |xs| ==> |xs[i]| == k
    ensures |Items(xs)| == |xs| * (k + 4)
    decreases |xs|
  {
    if |xs| > 0 {
      ItemsLength(xs[..|xs| - 1], k);
    }
  }

  /** Item i of a list of equally long items sits at offset i * (k + 4), after two spaces. */
  lemma {:induction false} ItemAt(xs: seq<string>, k: nat, i: nat, j: nat)
    requires forall t :: 0 <= t < |xs| ==> |xs[t]| == k
    requires i < |xs| && j < k
    ensures i * (k + 4) + k + 3 < |Items(xs)|
    ensures Items(xs)[i * (k + 4)] == ' ' && Items(xs)[i * (k + 4) + 1] == ' '
    ensures Items(xs)[i * (k + 4) + 2 + j] == xs[i][j]
    ensures Items(xs)[i * (k + 4) + k + 2] == ',' && Items(xs)[i * (k + 4) + k + 3] == '\n'
    decreases |xs|
  {
    var n := |xs|;
    var pre := xs[..n - 1];
    ItemsLength(pre, k);
    ItemsLength(xs, k);
    if i < n - 1 {
      ItemAt(pre, k, i, j);
      assert i * (k + 4) + k + 3 < (n - 1) * (k + 4) by {
        assert (i + 1) * (k + 4) <= (n - 1) * (k + 4);
      }
    } else {
      assert |Items(pre)| == i * (k + 4);
    }
  }

  const FramesHeader := "let gifFrames = [\n"
  const DelaysHeader := "];\n\nlet frameDelays = [\n"
  const AnimationFooter := "];\n\nlet currentFrame = 0;\nlet animationSprite = sprites.create(gifFrames[0], SpriteKind.Player);\ngame.onEveryInterval(frameDelays[currentFrame], function () {\n  currentFrame = (currentFrame + 1) % gifFrames.length;\n  animationSprite.setImage(gifFrames[currentFrame]);\n});\n"

  /** The decimal numerals of a list of delays. */
  function Numerals(delaysMs: seq<nat>): (ns: seq<string>)
    ensures |ns| == |delaysMs|
  {
    seq(|delaysMs|, i requires 0 <= i < |delaysMs| => Decimal(delaysMs[i]))
  }

  /** Each numeral of the delay list reads back as its delay. */
  lemma NumeralsRead(delaysMs: seq<nat>)
    ensures forall i :: 0 <= i < |delaysMs| ==>
      IsDecimal(Numerals(delaysMs)[i]) && DecimalValue(Numerals(delaysMs)[i]) == delaysMs[i]
  {
    forall i | 0 <= i < |delaysMs|
      ensures IsDecimal(Numerals(delaysMs)[i]) && DecimalValue(Numerals(delaysMs)[i]) == delaysMs[i]
    {
      DecimalRoundTrip(delaysMs[i]);
    }
  }

  /** gifOutput: the frames, one per line, then the delays, one per line, then the player. */
  function GifText(codes: seq<string>, delaysMs: seq<nat>): string {
    FramesHeader + Items(codes) + DelaysHeader + Items(Numerals(delaysMs)) + AnimationFooter
  }

  /** What running pushes for a frame. */
  datatype FrameResult = FrameResult(spriteCode: string, delay: nat)

  function Codes(results: seq<FrameResult>): (codes: seq<string>)
    ensures |codes| == |results|
    ensures forall i :: 0 <= i < |results| ==> codes[i] == results[i].spriteCode
  {
    seq(|results|, i requires 0 <= i < |results| => results[i].spriteCode)
  }

  function Delays(results: seq<FrameResult>): (delays: seq<nat>)
    ensures |delays| == |results|
    ensures forall i :: 0 <= i < |results| ==> delays[i] == results[i].delay
  {
    seq(|results|, i requires 0 <= i < |results| => results[i].delay)
  }

  /** The two forEach loops that build gifOutput from frameResults. */
  method AssembleOutput(frameResults: seq<FrameResult>) returns (gifOutput: string)
    ensures gifOutput == GifText(Codes(frameResults), Delays(frameResults))
  {
    var codes, numerals := Codes(frameResults), Numerals(Delays(frameResults));
    gifOutput := FramesHeader;
    for i := 0 to |frameResults|
      invariant gifOutput == FramesHeader + Items(codes[..i])
    {
      ItemsSnoc(codes, i);
      gifOutput := gifOutput + "  " + frameResults[i].spriteCode + ",\n";
    }
    assert codes[..|frameResults|] == codes;
    gifOutput := gifOutput + DelaysHeader;
    ghost var framesPart := gifOutput;
    for i := 0 to |frameResults|
      invariant gifOutput == framesPart + Items(numerals[..i])
    {
      ItemsSnoc(numerals, i);
      gifOutput := gifOutput + "  " + Decimal(frameResults[i].delay) + ",\n";
    }
    assert numerals[..|frameResults|] == numerals;
    gifOutput := gifOutput + AnimationFooter;
  }

  // ---------------------------------------------------------------------------
  // The frame loop of running

  /** What getFrameImageData hands over for frame i: frame i decoded alone onto a
      transparent buffer the size of the GIF screen (earlier frames are not drawn under
      it), or a failure (the decoder threw). */
  datatype FrameSource = Decoded(raster: seq<seq<Rgba>>) | DecodeError

  /** What running ends with: the animation text, or the first frame that failed (no
      text is produced then). */
  datatype Outcome = Finished(text: string) | FrameFailed(index: nat)

  /** Every decoded frame covers the gw x gh GIF screen. */
  ghost predicate ValidFrames(frames: seq<FrameSource>, gw: nat, gh: nat) {
    gw >= 1 && gh >= 1 && forall i :: 0 <= i < |frames| && frames[i].Decoded? ==> IsGrid(frames[i].raster, gw, gh)
  }

  ghost predicate AllDecoded(frames: seq<FrameSource>) {
    forall i :: 0 <= i < |frames| ==> frames[i].Decoded?
  }

  /** The spriteCode convert produces for a gw x gh frame raster. */
  ghost function FrameSprite(raster: seq<seq<Rgba>>, gw: nat, gh: nat, w: nat, h: nat, slots: seq<string>, mode: Mode): string
    requires IsGrid(raster, gw, gh) && gw >= 1 && gh >= 1 && ValidSlots(slots)
  {
    SpriteOf(ResampleGrid(raster, gw, gh, w, h), w, h, ArcadeColors(slots), mode)
  }

  /** The spriteCode of every frame, in order ("" stands for a frame that failed). */
  ghost function FrameSprites(frames: seq<FrameSource>, gw: nat, gh: nat, w: nat, h: nat, slots: seq<string>, mode: Mode): (codes: seq<string>)
    requires ValidFrames(frames, gw, gh) && ValidSlots(slots)
    ensures |codes| == |frames|
  {
    seq(|frames|, j requires 0 <= j < |frames| =>
      if frames[j].Decoded? then FrameSprite(frames[j].raster, gw, gh, w, h, slots, mode) else "")
  }

  /** The frames' delays in milliseconds, in order. */
  function DelaysMs(delays: seq<nat>): (ms: seq<nat>)
    ensures |ms| == |delays|
    ensures forall i :: 0 <= i < |delays| ==> ms[i] == delays[i] * 10
  {
    seq(|delays|, i requires 0 <= i < |delays| => DelayMs(delays[i]))
  }

  /** The first failing frame. */
  ghost predicate FirstFailure(frames: seq<FrameSource>, i: nat) {
    i < |frames| && frames[i].DecodeError? && forall j :: 0 <= j < i ==> frames[j].Decoded?
  }

  /** expected holds the spriteCode of every decoded frame. */
  ghost predicate Expects(frames: seq<FrameSource>, gw: nat, gh: nat, w: nat, h: nat, slots: seq<string>, mode: Mode,
                          expected: seq<string>)
    requires ValidFrames(frames, gw, gh) && ValidSlots(slots)
  {
    && |expected| == |frames|
    && forall j {:trigger FrameSprite(frames[j].raster, gw, gh, w, h, slots, mode)} ::
         0 <= j < |frames| && frames[j].Decoded? ==> expected[j] == FrameSprite(frames[j].raster, gw, gh, w, h, slots, mode)
  }

  /** Frame i's raster put on the offscreen canvas and read back with getImageData, then
      convert(img, frame, i). */
  method ConvertFrame(frames: seq<FrameSource>, i: nat, gw: nat, gh: nat, w: nat, h: nat, slots: seq<string>, mode: Mode,
                      ghost expected: seq<string>)
    returns (spriteCode: string)
    requires ValidFrames(frames, gw, gh) && ValidSlots(slots) && Expects(frames, gw, gh, w, h, slots, mode, expected)
    requires i < |frames| && frames[i].Decoded?
    ensures spriteCode == expected[i]
  {
    var frame := FromGrid(frames[i].raster, gw, gh);
    spriteCode := Convert.Convert(frame, w, h, slots, mode);
    ResampledOfPixels(frame, w, h);
    assert spriteCode == FrameSprite(frames[i].raster, gw, gh, w, h, slots, mode);
  }

  /** The frame loop of running: converts frame after frame and pushes its spriteCode
      with the frame's own delay, until a frame fails, which stops the loop. */
  method ConvertFrames(frames: seq<FrameSource>, delays: seq<nat>, gw: nat, gh: nat, w: nat, h: nat,
                       slots: seq<string>, mode: Mode, ghost expected: seq<string>)
    returns (frameResults: seq<FrameResult>, processingErrors: bool, failed: nat)
    requires |frames| == |delays| && ValidFrames(frames, gw, gh) && ValidSlots(slots)
    requires Expects(frames, gw, gh, w, h, slots, mode, expected)
    ensures processingErrors <==> !AllDecoded(frames)
    ensures processingErrors ==> FirstFailure(frames, failed)
    ensures !processingErrors ==> |frameResults| == |frames| && forall j :: 0 <= j < |frames| ==>
      frameResults[j] == FrameResult(expected[j], DelayMs(delays[j]))
  {
    frameResults := [];
    processingErrors := false;
    failed := 0;
    var i := 0;
    while i < |frames|
      invariant 0 <= i <= |frames| && |frameResults| == i
      invariant forall j :: 0 <= j < i ==> frames[j].Decoded?
      invariant forall j :: 0 <= j < i ==> frameResults[j] == FrameResult(expected[j], DelayMs(delays[j]))
    {
      match frames[i]
      case DecodeError =>
        processingErrors := true;
        failed := i;
        break;
      case Decoded(_) =>
        var code := ConvertFrame(frames, i, gw, gh, w, h, slots, mode, expected);
        frameResults := frameResults + [FrameResult(code, DelayMs(delays[i]))];
        i := i + 1;
    }
  }

  /** FrameSprites is what the frame loop expects of every decoded frame. */
  lemma FrameSpritesExpected(frames: seq<FrameSource>, gw: nat, gh: nat, w: nat, h: nat, slots: seq<string>, mode: Mode)
    requires ValidFrames(frames, gw, gh) && ValidSlots(slots)
    ensures Expects(frames, gw, gh, w, h, slots, mode, FrameSprites(frames, gw, gh, w, h, slots, mode))
  {
    var codes := FrameSprites(frames, gw, gh, w, h, slots, mode);
    forall j | 0 <= j < |frames| && frames[j].Decoded?
      ensures codes[j] == FrameSprite(frames[j].raster, gw, gh, w, h, slots, mode)
    {
    }
  }

  /** Results pushed in frame order, each with its frame's delay, list exactly the
      expected spriteCodes and the frames' delays in milliseconds. */
  lemma ResultsInOrder(frameResults: seq<FrameResult>, delays: seq<nat>, expected: seq<string>)
    requires |frameResults| == |delays| == |expected|
    requires forall j :: 0 <= j < |delays| ==> frameResults[j] == FrameResult(expected[j], DelayMs(delays[j]))
    ensures Codes(frameResults) == expected && Delays(frameResults) == DelaysMs(delays)
  {
  }

  /** running, for a GIF of gw x gh with at least one frame (otherwise running takes the
      static-image branch): w and h are the img element's size after
      updateImageDimensions, delays the frames' delays in hundredths of a second. A failing
      frame stops the loop and no text is produced; otherwise the text lists every frame's
      spriteCode and its own delay in milliseconds, in order. */
  method Running(frames: seq<FrameSource>, delays: seq<nat>, gw: nat, gh: nat, w: nat, h: nat,
                 slots: seq<string>, mode: Mode)
    returns (outcome: Outcome)
    requires 0 < |frames| == |delays| && ValidFrames(frames, gw, gh) && ValidSlots(slots)
    ensures outcome.FrameFailed? <==> !AllDecoded(frames)
    ensures outcome.FrameFailed? ==> FirstFailure(frames, outcome.index)
    ensures outcome.Finished? ==>
      outcome.text == GifText(FrameSprites(frames, gw, gh, w, h, slots, mode), DelaysMs(delays))
  {
    ghost var expected := FrameSprites(frames, gw, gh, w, h, slots, mode);
    FrameSpritesExpected(frames, gw, gh, w, h, slots, mode);
    var frameResults, processingErrors, failed := ConvertFrames(frames, delays, gw, gh, w, h, slots, mode, expected);
    if !processingErrors {
      var gifOutput := AssembleOutput(frameResults);
      ResultsInOrder(frameResults, delays, expected);
      outcome := Finished(gifOutput);
    } else {
      outcome := FrameFailed(failed);
    }
  }

  // ---------------------------------------------------------------------------
  // A worked case

  /** Delays of 0, 5 and 0 hundredths: any gifMinDelay within GifMinDelay's bound is 0,
      so the zero delays are not replaced, and running's delay list is 0, 50, 0. */
  lemma ZeroDelaysKept(gifMinDelay: nat)
    requires forall i :: 0 <= i < 3 ==> gifMinDelay <= DelayMs([0, 5, 0][i])
    ensures gifMinDelay == 0
    ensures forall i :: 0 <= i < 3 ==> ReportedDelay(DelayMs([0, 5, 0][i]), gifMinDelay) == DelaysMs([0, 5, 0])[i]
    ensures DelaysMs([0, 5, 0]) == [0, 50, 0]
  {
    var d := DelaysMs([0, 5, 0]);
    assert d[0] == 0 && d[1] == 50 && d[2] == 0;
    assert d == [0, 50, 0];
  }

  /** The delay lines running writes for delays of 0, 5 and 0 hundredths. */
  lemma ZeroDelaysWritten()
    ensures Items(Numerals(DelaysMs([0, 5, 0]))) == "  0,\n  50,\n  0,\n"
  {
    ZeroDelaysKept(0);
    assert Decimal(50) == "50" by {
      assert Decimal(5) == "5";
    }
    var ns := Numerals([0, 50, 0]);
    assert ns == ["0", "50", "0"];
    ItemsSnoc(ns, 0);
    ItemsSnoc(ns, 1);
    ItemsSnoc(ns, 2);
    assert ns[..0] == [] && ns[..3] == ns;
  }
}
