/**
 * Atmospheric-light estimation (`estimate_atmospheric_light`): the channels
 * are ranked by their brightest value, and output slot c receives the
 * `num_pixels`-th largest value of the channel ranked c-th. The slots are
 * therefore in brightness order, not in blue, green, red order.
 */
module AtmosphericLight {
  import opened Results
  import opened Sorting
  import opened ArgSort
  import opened Frames

  /** The estimated light: one value per output slot. */
  type Light = Pixel

  /**
   * The position Python reads for `a[i]` on a sequence of length n, if the
   * read does not raise IndexError: negative indices count from the end.
   */
  function PyIndex(n: nat, i: int): (r: Option<nat>)
    ensures r.Some? <==> 0 <= i + n && i < n
    ensures r.Some? ==> r.value < n && r.value == (if i < 0 then n + i else i)
  {
    if 0 <= i < n then Some(i)
    else if 0 <= i + n && i < 0 then Some(i + n)
    else None
  }

  /** `max_channel_vals`: the brightest value of each channel. */
  function ChannelMaxima(img: Frame): (m: seq<int>)
    requires |img.pixels| > 0
    ensures |m| == 3
    ensures forall c: Channel :: m[c] == Max(ChannelValues(img, c))
  {
    [Max(ChannelValues(img, 0)), Max(ChannelValues(img, 1)), Max(ChannelValues(img, 2))]
  }

  /**
   * `sorted_vals`: the three channels ranked by their maxima, brightest first;
   * between channels with equal maxima the higher index comes first.
   */
  function ChannelOrder(img: Frame): (order: seq<Channel>)
    requires |img.pixels| > 0
    ensures |order| == 3
    ensures forall c: Channel :: c in order
    ensures forall i, j :: 0 <= i < j < 3 ==>
              ChannelMaxima(img)[order[i]] > ChannelMaxima(img)[order[j]] ||
              (ChannelMaxima(img)[order[i]] == ChannelMaxima(img)[order[j]] && order[i] > order[j])
  {
    var r := Ranking(ChannelMaxima(img));
    assert forall i :: 0 <= i < 3 ==> r[i] < 3;
    var order: seq<Channel> := seq(3, i requires 0 <= i < 3 => r[i] as Channel);
    assert forall c: Channel :: c in order by {
      forall c: Channel
        ensures c in order
      {
        assert c in r;
        var i :| 0 <= i < 3 && r[i] == c;
        assert order[i] == c;
      }
    }
    order
  }

  /** The value slot c receives: the ranked channel's values, sorted ascending, read at `pos`. */
  function SlotValue(img: Frame, order: seq<Channel>, c: Channel, pos: nat): (v: Byte)
    requires |order| == 3 && pos < |img.pixels|
    ensures v in ChannelValues(img, order[c])
  {
    var vals := ChannelValues(img, order[c]);
    SortedElement(vals, pos);
    SortAsc(vals)[pos]
  }

  /** The light read at one sorted position: slot c from the channel ranked c-th. */
  function LightAt(img: Frame, order: seq<Channel>, pos: nat): (light: Light)
    requires |order| == 3 && pos < |img.pixels|
    ensures forall c: Channel :: light[c] == SlotValue(img, order, c, pos)
  {
    [SlotValue(img, order, 0, pos), SlotValue(img, order, 1, pos), SlotValue(img, order, 2, pos)]
  }

  /**
   * Lines 13-23 of `estimate_atmospheric_light` once `num_pixels` is known:
   * fails when the frame has no pixels (the maxima cannot be taken) or when
   * index `-num_pixels` lies outside the channel; otherwise slot c holds the
   * value of the channel ranked c-th at that index of its ascending sort.
   */
  function LightForCount(img: Frame, numPixels: int): (r: Result<Light, Error>)
    ensures r.Success? <==> |img.pixels| > 0 && -|img.pixels| < numPixels <= |img.pixels|
    ensures r.Failure? ==> r.error == (if |img.pixels| == 0 then EmptyFrame else IndexOutOfRange)
  {
    if |img.pixels| == 0 then Failure(EmptyFrame)
    else
      match PyIndex(|img.pixels|, -numPixels)
      case None => Failure(IndexOutOfRange)
      case Some(pos) => Success(LightAt(img, ChannelOrder(img), pos))
  }

  /**
   * `estimate_atmospheric_light(img, p)`: the sample size `int(H * W * p)`,
   * then the light for that many pixels. It succeeds exactly when the frame
   * has pixels and the negated sample size is a valid Python index into a
   * channel.
   */
  function EstimateLight(img: Frame, p: Percentile): (r: Result<Light, Error>)
    ensures r.Success? <==>
              |img.pixels| > 0 && -|img.pixels| < PixelCount(img.height, img.width, p) <= |img.pixels|
    ensures r.Failure? ==> r.error == (if |img.pixels| == 0 then EmptyFrame else IndexOutOfRange)
  {
    LightForCount(img, PixelCount(img.height, img.width, p))
  }

  /**
   * Unfolding aid for proofs: on a frame with pixels, the estimate either
   * raises IndexError or fills all three slots at one position.
   */
  lemma {:induction false} LightForCountSlots(img: Frame, numPixels: int)
    requires |img.pixels| > 0
    ensures var index := PyIndex(|img.pixels|, -numPixels);
      LightForCount(img, numPixels) ==
        if index.None? then Failure(IndexOutOfRange)
        else Success(LightAt(img, ChannelOrder(img), index.value))
  {
  }

  /**
   * The estimator as the source runs it: a light array of zeros filled slot
   * by slot. It returns exactly what EstimateLight describes.
   */
  method EstimateAtmosphericLight(img: Frame, p: Percentile) returns (r: Result<Light, Error>)
    ensures r == EstimateLight(img, p)
  {
    var numPixels := PixelCount(img.height, img.width, p);
    if |img.pixels| == 0 {
      return Failure(EmptyFrame);
    }
    var order := ChannelOrder(img);
    ghost var index := PyIndex(|img.pixels|, -numPixels);
    var light := new Byte[3](_ => 0);
    for c := 0 to 3
      invariant index.Some? || c == 0
      invariant forall j :: 0 <= j < c ==> light[j] == SlotValue(img, order, j, index.value)
    {
      // reading position -num_pixels of the sorted channel raises IndexError when out of range
      var pos := PyIndex(|img.pixels|, -numPixels);
      if pos.None? {
        LightForCountSlots(img, numPixels);
        return Failure(IndexOutOfRange);
      }
      light[c] := SlotValue(img, order, c, pos.value);
    }
    var result: Light := [light[0], light[1], light[2]];
    assert result == LightAt(img, order, index.value);
    LightForCountSlots(img, numPixels);
    r := Success(result);
  }

  /**
   * For 1 <= num_pixels <= H * W, slot c holds the num_pixels-th largest
   * value of the channel ranked c-th: at least num_pixels of that channel's
   * values reach it and fewer exceed it.
   */
  lemma {:induction false} LightIsKthLargest(img: Frame, k: int, c: Channel)
    requires 1 <= k <= |img.pixels|
    ensures LightForCount(img, k).Success?
    ensures IsKthLargest(ChannelValues(img, ChannelOrder(img)[c]), k, LightForCount(img, k).value[c])
  {
    var vals := ChannelValues(img, ChannelOrder(img)[c]);
    assert PyIndex(|img.pixels|, -k) == Some(|vals| - k);
    LightForCountSlots(img, k);
    assert LightForCount(img, k).value[c] == SortAsc(vals)[|vals| - k];
    SortedIndexIsKthLargest(vals, k);
  }

  /**
   * Whenever the estimate succeeds, every slot is an actual value of its
   * ranked channel, so it lies between that channel's smallest and largest
   * value.
   */
  lemma {:induction false} LightWithinRankedChannel(img: Frame, k: int, c: Channel)
    requires LightForCount(img, k).Success?
    ensures LightForCount(img, k).value[c] in ChannelValues(img, ChannelOrder(img)[c])
    ensures LightForCount(img, k).value[c] <= ChannelMaxima(img)[ChannelOrder(img)[c]]
  {
    var order := ChannelOrder(img);
    var vals := ChannelValues(img, order[c]);
    LightForCountSlots(img, k);
    var v := LightForCount(img, k).value[c];
    assert v in vals;
    var i :| 0 <= i < |vals| && vals[i] == v;
    assert img.pixels[i][order[c]] == v;
  }

  /**
   * When num_pixels is 0, Python reads index -0, which is index 0: no error
   * is raised and every slot holds the smallest value of its ranked channel.
   */
  lemma {:induction false} ZeroPixelCountTakesMinimum(img: Frame, c: Channel)
    requires |img.pixels| > 0
    ensures LightForCount(img, 0).Success?
    ensures LightForCount(img, 0).value[c] in ChannelValues(img, ChannelOrder(img)[c])
    ensures forall x :: x in ChannelValues(img, ChannelOrder(img)[c]) ==> LightForCount(img, 0).value[c] <= x
  {
    var vals := ChannelValues(img, ChannelOrder(img)[c]);
    assert PyIndex(|img.pixels|, 0) == Some(0);
    LightForCountSlots(img, 0);
    assert LightForCount(img, 0).value[c] == SortAsc(vals)[0];
    SortedFirstIsMinimum(vals);
  }

  /**
   * A negative `num_pixels` makes index `-num_pixels` non-negative: slot c
   * reads that position from the bottom of the ascending sort of its ranked
   * channel.
   */
  lemma {:induction false} NegativeCountReadsFromBottom(img: Frame, k: int, c: Channel)
    requires -|img.pixels| < k < 0
    ensures LightForCount(img, k).Success?
    ensures LightForCount(img, k).value[c] == SortAsc(ChannelValues(img, ChannelOrder(img)[c]))[-k]
  {
    LightForCountSlots(img, k);
  }

  /** With the default percentile of 0.1 the estimate fails exactly on a frame without pixels. */
  lemma {:induction false} DefaultPercentileFailsOnlyWhenEmpty(img: Frame)
    ensures EstimateLight(img, DefaultPercentile).Success? <==> |img.pixels| > 0
  {
    PixelCountWithinFrame(img.height, img.width, DefaultPercentile);
  }

  /** Every pixel of `img` has the colour `px`. */
  predicate Uniform(img: Frame, px: Pixel)
  {
    forall i :: 0 <= i < |img.pixels| ==> img.pixels[i] == px
  }

  /** In a uniform frame every value of channel `ch` is the colour's component `ch`, and so is its maximum. */
  lemma {:induction false} UniformChannel(img: Frame, px: Pixel, ch: Channel)
    requires Uniform(img, px) && |img.pixels| > 0
    ensures forall v :: v in ChannelValues(img, ch) ==> v == px[ch]
    ensures ChannelMaxima(img)[ch] == px[ch]
  {
    var vals := ChannelValues(img, ch);
    forall v | v in vals
      ensures v == px[ch]
    {
      var i :| 0 <= i < |vals| && vals[i] == v;
    }
  }

  /**
   * On a frame of one colour, slot c holds the colour's component in the
   * channel ranked c-th, which is also that channel's maximum.
   */
  lemma {:induction false} UniformSlots(img: Frame, k: int, px: Pixel)
    requires Uniform(img, px)
    requires LightForCount(img, k).Success?
    ensures forall c: Channel ::
              LightForCount(img, k).value[c] == px[ChannelOrder(img)[c]] == ChannelMaxima(img)[ChannelOrder(img)[c]]
  {
    var order := ChannelOrder(img);
    forall c: Channel
      ensures LightForCount(img, k).value[c] == px[order[c]] == ChannelMaxima(img)[order[c]]
    {
      UniformChannel(img, px, order[c]);
      LightWithinRankedChannel(img, k, c);
    }
  }

  /** A ranking of the three channels is one of the six orders of 0, 1 and 2. */
  lemma {:induction false} ThreeChannelOrders(order: seq<Channel>)
    requires |order| == 3 && forall c: Channel :: c in order
    ensures order == [0, 1, 2] || order == [0, 2, 1] || order == [1, 0, 2] ||
            order == [1, 2, 0] || order == [2, 0, 1] || order == [2, 1, 0]
  {
    assert 0 in order && 1 in order && 2 in order;
  }

  /**
   * On a frame of one colour, the estimate is that colour's components in
   * non-increasing order, each component once. It is the colour itself
   * exactly when the components are already non-increasing.
   */
  lemma {:induction false} UniformFrameLight(img: Frame, k: int, px: Pixel)
    requires Uniform(img, px)
    requires LightForCount(img, k).Success?
    ensures var light := LightForCount(img, k).value;
            light[0] >= light[1] >= light[2] &&
            multiset(light) == multiset(px) &&
            (light == px <==> px[0] >= px[1] >= px[2])
  {
    var order := ChannelOrder(img);
    var light := LightForCount(img, k).value;
    UniformSlots(img, k, px);
    ThreeChannelOrders(order);
    RankedPermutes(px, order, light);
    RankedMatchesColour(px, order, light);
    MultisetOfThree(light);
    MultisetOfThree(px);
    EqualThree(light, px);
  }

  /**
   * A frame of one colour whose components are already non-increasing, such
   * as grey or white, estimates exactly that colour for every percentile in
   * [0, 1], as long as the frame has pixels.
   */
  lemma {:induction false} NonIncreasingColourIsKept(img: Frame, p: Percentile, px: Pixel)
    requires Uniform(img, px) && |img.pixels| > 0
    requires 0 <= p.num <= p.den
    requires px[0] >= px[1] >= px[2]
    ensures EstimateLight(img, p) == Success(px)
  {
    PixelCountWithinFrame(img.height, img.width, p);
    UniformFrameLight(img, PixelCount(img.height, img.width, p), px);
  }

  /** Reading the components of `px` in any order of the channels rearranges them. */
  lemma {:induction false} RankedPermutes(px: Pixel, order: seq<Channel>, light: Light)
    requires order == [0, 1, 2] || order == [0, 2, 1] || order == [1, 0, 2] ||
             order == [1, 2, 0] || order == [2, 0, 1] || order == [2, 1, 0]
    requires light[0] == px[order[0]] && light[1] == px[order[1]] && light[2] == px[order[2]]
    ensures multiset{light[0], light[1], light[2]} == multiset{px[0], px[1], px[2]}
  {
  }

  /**
   * Components read from the largest down equal `px` exactly when `px` is
   * already non-increasing.
   */
  lemma {:induction false} RankedMatchesColour(px: Pixel, order: seq<Channel>, light: Light)
    requires order == [0, 1, 2] || order == [0, 2, 1] || order == [1, 0, 2] ||
             order == [1, 2, 0] || order == [2, 0, 1] || order == [2, 1, 0]
    requires light[0] == px[order[0]] && light[1] == px[order[1]] && light[2] == px[order[2]]
    requires light[0] >= light[1] >= light[2]
    ensures light[0] == px[0] && light[1] == px[1] && light[2] == px[2] <==> px[0] >= px[1] >= px[2]
  {
  }

  /** The only order that reads rising components from the largest down is red, green, blue. */
  lemma {:induction false} RankedRising(px: Pixel, order: seq<Channel>)
    requires order == [0, 1, 2] || order == [0, 2, 1] || order == [1, 0, 2] ||
             order == [1, 2, 0] || order == [2, 0, 1] || order == [2, 1, 0]
    requires px[order[0]] >= px[order[1]] >= px[order[2]]
    requires px[0] < px[1] < px[2]
    ensures order == [2, 1, 0]
  {
  }

  lemma {:induction false} MultisetOfThree(s: seq<int>)
    requires |s| == 3
    ensures multiset(s) == multiset{s[0], s[1], s[2]}
  {
    assert s == [s[0]] + [s[1]] + [s[2]];
  }

  lemma {:induction false} EqualThree(s: seq<int>, t: seq<int>)
    requires |s| == 3 && |t| == 3
    ensures s == t <==> s[0] == t[0] && s[1] == t[1] && s[2] == t[2]
  {
    if s[0] == t[0] && s[1] == t[1] && s[2] == t[2] {
      assert forall i :: 0 <= i < 3 ==> s[i] == t[i];
    }
  }

  /**
   * The slots follow brightness, not the blue, green, red layout: on a
   * frame of one colour whose components rise from blue to red, such as
   * (10, 20, 30), the light lists them from red down to blue, (30, 20, 10).
   */
  lemma {:induction false} RisingColourIsReversed(img: Frame, k: int, px: Pixel)
    requires Uniform(img, px)
    requires LightForCount(img, k).Success?
    requires px[0] < px[1] < px[2]
    ensures LightForCount(img, k).value == [px[2], px[1], px[0]]
  {
    var order := ChannelOrder(img);
    var light := LightForCount(img, k).value;
    UniformSlots(img, k, px);
    ThreeChannelOrders(order);
    RankedRising(px, order);
    EqualThree(light, [px[2], px[1], px[0]]);
  }
}

