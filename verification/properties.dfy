/** What the encoder guarantees about its output, stated over the visiting
    order and proved from the definitions of the encoder. */
module EncoderProperties {
  import opened Results
  import opened Pixels
  import opened Bitmaps
  import opened VisitOrder
  import opened Encoder

  /** The low byte of every character of a message. */
  function LowBytes(message: seq<Char16>): (bytes: seq<Byte>)
  {
    seq(|message|, k requires 0 <= k < |message| => LowByte(message[k]))
  }

  /** The red channels of the first `n` pixels in the visiting order. */
  function ReadRed(image: Bitmap, n: nat): seq<Byte>
    requires image.Valid() && n <= image.Capacity()
  {
    if n == 0 then
      []
    else
      PositionInGrid(n - 1, image.width, image.height);
      var (x, y) := Position(n - 1, image.height);
      ReadRed(image, n - 1) + [image.GetPixel(x, y).r]
  }

  /** The pixel visited at step `k` carries `message[k]` in its red channel
      when `k` is below the message length and is the source pixel
      otherwise. */
  lemma EncodeAtStep(source: Bitmap, message: seq<Char16>, k: nat)
    requires source.Valid() && k < source.Capacity()
    ensures source.height > 0
    ensures var (x, y) := Position(k, source.height);
            && source.InGrid(x, y)
            && Encode(source, message).GetPixel(x, y) ==
                 if k < |message| then AddCharToPixel(source.GetPixel(x, y), message[k])
                 else source.GetPixel(x, y)
  {
    PositionInGrid(k, source.width, source.height);
  }

  /** Reading the red channels back in the visiting order yields the low
      bytes of the message, as far as it fits in the bitmap. */
  lemma {:induction false} ReadBackPrefix(source: Bitmap, message: seq<Char16>, n: nat)
    requires source.Valid() && n <= |message| && n <= source.Capacity()
    ensures ReadRed(Encode(source, message), n) == LowBytes(message[..n])
  {
    if n > 0 {
      ReadBackPrefix(source, message, n - 1);
      EncodeAtStep(source, message, n - 1);
      assert message[..n] == message[..n - 1] + [message[n - 1]];
    }
  }

  /** The read-back of everything the encoder wrote: the first
      `min(|message|, width * height)` red channels are the message's low
      bytes. */
  lemma ReadBack(source: Bitmap, message: seq<Char16>)
    requires source.Valid()
    ensures var n := Min(|message|, source.Capacity());
            ReadRed(Encode(source, message), n) == LowBytes(message[..n])
  {
    ReadBackPrefix(source, message, Min(|message|, source.Capacity()));
  }

  /** For a message of single-byte characters the read-back is the message
      prefix itself. */
  lemma ReadBackText(source: Bitmap, message: seq<Char16>)
    requires source.Valid()
    requires forall k | 0 <= k < |message| :: message[k] < 0x100
    ensures var n := Min(|message|, source.Capacity());
            var bytes := ReadRed(Encode(source, message), n);
            |bytes| == n && forall k | 0 <= k < n :: bytes[k] == message[k]
  {
    ReadBack(source, message);
  }

  /** Encoding the same message into an encoded bitmap changes nothing. */
  lemma EncodeIdempotent(source: Bitmap, message: seq<Char16>)
    requires source.Valid()
    ensures Encode(Encode(source, message), message) == Encode(source, message)
  {
    var once := Encode(source, message);
    var twice := Encode(once, message);
    forall x, y | once.InGrid(x, y)
      ensures twice.GetPixel(x, y) == once.GetPixel(x, y)
    {
      var k := Step(source, x, y);
      if k < |message| {
        AddCharToPixelIdempotent(source.GetPixel(x, y), message[k]);
      }
    }
    SameBitmap(twice, once);
  }

  /** `EncodeMessage` applied to its own output returns that output. */
  lemma EncodeMessageIdempotent(source: Bitmap, message: seq<Char16>)
    requires source.Valid() && EncodeMessage(source, message).Success?
    ensures EncodeMessage(EncodeMessage(source, message).value, message) == EncodeMessage(source, message)
  {
    EncodeIdempotent(source, message);
  }

  /** One pixel of a bitmap encoded with a message longer than the pixel
      count: it holds the character of its step, as with the cut message. */
  lemma TruncatedPixel(source: Bitmap, message: seq<Char16>, x: nat, y: nat)
    requires source.Valid() && |message| > source.Capacity() && source.InGrid(x, y)
    ensures Encode(source, message).GetPixel(x, y)
         == Encode(source, message[..source.Capacity()]).GetPixel(x, y)
         == AddCharToPixel(source.GetPixel(x, y), message[Step(source, x, y)])
  {
  }

  /** A message longer than the pixel count is cut to its first
      `width * height` characters without any error: every pixel is then
      written. */
  lemma SilentTruncation(source: Bitmap, message: seq<Char16>)
    requires source.Valid() && |message| > source.Capacity()
    ensures EncodeMessage(source, message) == Success(Encode(source, message[..source.Capacity()]))
    ensures forall x, y | source.InGrid(x, y) ::
              Encode(source, message).GetPixel(x, y).r == LowByte(message[Step(source, x, y)])
  {
    forall x, y | source.InGrid(x, y)
      ensures Encode(source, message).GetPixel(x, y) == Encode(source, message[..source.Capacity()]).GetPixel(x, y)
      ensures Encode(source, message).GetPixel(x, y).r == LowByte(message[Step(source, x, y)])
    {
      TruncatedPixel(source, message, x, y);
    }
    SameBitmap(Encode(source, message), Encode(source, message[..source.Capacity()]));
  }

  /** An empty message only succeeds on a bitmap without pixels, and then
      returns the copy unchanged. */
  lemma EncodeEmptyMessage(source: Bitmap)
    requires source.Valid()
    ensures EncodeMessage(source, []).Success? <==> source.Capacity() == 0
    ensures EncodeMessage(source, []).Success? ==> EncodeMessage(source, []).value == source
  {
    if source.Capacity() == 0 {
      SameBitmap(Encode(source, []), source);
    }
  }

  /** Every message that passes `ReadMessage` is encoded without an error. */
  lemma ValidatedMessageEncodes(source: Bitmap, line: Option<seq<Char16>>)
    requires source.Valid() && ReadMessage(line).Success?
    ensures EncodeMessage(source, ReadMessage(line).value).Success?
  {
  }
}
