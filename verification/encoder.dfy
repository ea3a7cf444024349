/** The message encoder: each character of the message replaces the red
    channel of one pixel, in the x-major visiting order, on a copy of the
    source bitmap. */
module Encoder {
  import opened Results
  import opened Pixels
  import opened Bitmaps
  import opened VisitOrder

  function Min(a: nat, b: nat): nat {
    if a <= b then a else b
  }

  /** The step at which the encoder visits pixel `(x, y)` of `source`: it is
      below the pixel count, and the pixel visited at that step is `(x, y)`. */
  function Step(source: Bitmap, x: nat, y: nat): (k: nat)
    requires source.Valid() && source.InGrid(x, y)
    ensures k < source.Capacity()
    ensures Position(k, source.height) == (x, y)
  {
    IndexInGrid(x, y, source.width, source.height);
    PositionOfIndex(x, y, source.height);
    Index(x, y, source.height)
  }

  /** The pixel the encoder leaves at `(x, y)` once it has visited `n` pixels:
      the source pixel with the character of that step in its red channel if
      the step came before `n`, the source pixel itself otherwise. */
  function ExpectedPixel(source: Bitmap, message: seq<Char16>, n: nat, x: nat, y: nat): Pixel
    requires source.Valid() && source.InGrid(x, y)
  {
    var k := Step(source, x, y);
    if k < n && k < |message| then AddCharToPixel(source.GetPixel(x, y), message[k])
    else source.GetPixel(x, y)
  }

  /** `image` is the source with the first `n` visited pixels encoded and
      every other pixel untouched. */
  predicate EncodedUpTo(source: Bitmap, message: seq<Char16>, image: Bitmap, n: nat)
    requires source.Valid()
  {
    && image.Valid()
    && image.width == source.width
    && image.height == source.height
    && forall x, y | 0 <= x < source.width && 0 <= y < source.height ::
         image.GetPixel(x, y) == ExpectedPixel(source, message, n, x, y)
  }

  /** Visiting pixel `(x, y)` at its step extends the encoded prefix
      by exactly that step. */
  lemma {:induction false} EncodeStep(source: Bitmap, message: seq<Char16>, image: Bitmap, x: nat, y: nat)
    requires source.Valid() && source.InGrid(x, y)
    requires Step(source, x, y) < |message|
    requires EncodedUpTo(source, message, image, Step(source, x, y))
    ensures EncodedUpTo(source, message,
                        image.SetPixel(x, y, AddCharToPixel(source.GetPixel(x, y), message[Step(source, x, y)])),
                        Step(source, x, y) + 1)
  {
    var k := Step(source, x, y);
    var next := image.SetPixel(x, y, AddCharToPixel(source.GetPixel(x, y), message[k]));
    forall x', y' | source.InGrid(x', y')
      ensures next.GetPixel(x', y') == ExpectedPixel(source, message, k + 1, x', y')
    {
      if (x', y') != (x, y) {
        assert Step(source, x', y') != k;
      }
    }
  }

  /** The bitmap after the encoder has visited its first `n` pixels, each
      step writing one character in the visiting order. */
  function EncodeSteps(source: Bitmap, message: seq<Char16>, n: nat): (result: Bitmap)
    requires source.Valid()
    requires n <= |message| && n <= source.Capacity()
    ensures EncodedUpTo(source, message, result, n)
    decreases n
  {
    if n == 0 then
      source
    else
      var previous := EncodeSteps(source, message, n - 1);
      PositionInGrid(n - 1, source.width, source.height);
      var (x, y) := Position(n - 1, source.height);
      EncodeStep(source, message, previous, x, y);
      previous.SetPixel(x, y, AddCharToPixel(source.GetPixel(x, y), message[n - 1]))
  }

  /** The encoded copy of `source`: the pixel visited at step `k` carries
      `message[k]` in its red channel for every `k` below the message length
      (steps past the last pixel are silently dropped), and every other
      channel and pixel is the source's. */
  function Encode(source: Bitmap, message: seq<Char16>): (result: Bitmap)
    requires source.Valid()
    ensures result.Valid()
    ensures result.width == source.width && result.height == source.height
    ensures forall x, y | source.InGrid(x, y) ::
              result.GetPixel(x, y) ==
                if Step(source, x, y) < |message|
                then AddCharToPixel(source.GetPixel(x, y), message[Step(source, x, y)])
                else source.GetPixel(x, y)
  {
    EncodeSteps(source, message, Min(|message|, source.Capacity()))
  }

  /** `EncodeMessage` of the program: reads `message[0]` before it checks the
      length, so an empty message fails as soon as the grid has a pixel; on
      any other input it returns the encoded copy. */
  function EncodeMessage(source: Bitmap, message: seq<Char16>): (r: Result<Bitmap>)
    requires source.Valid()
    ensures r.Failure? <==> |message| == 0 && source.Capacity() > 0
    ensures r.Failure? ==> r.error == IndexOutOfRange
    ensures r.Success? ==> r.value == Encode(source, message)
  {
    if |message| == 0 && source.width > 0 && source.height > 0 then
      Failure(IndexOutOfRange)
    else
      Success(Encode(source, message))
  }

  /** `ReadMessage` of the program: a null or empty line is rejected. */
  function ReadMessage(line: Option<seq<Char16>>): (r: Result<seq<Char16>>)
    ensures r.Success? <==> line.Some? && |line.value| > 0
    ensures r.Success? ==> r.value == line.value
    ensures r.Failure? ==> r.error == InvalidData
  {
    match line
    case None => Failure(InvalidData)
    case Some(text) => if |text| == 0 then Failure(InvalidData) else Success(text)
  }
}
