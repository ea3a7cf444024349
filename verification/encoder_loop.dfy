/** The encoder as the program writes it: two nested loops over `row` (the x
    coordinate) and `col` (the y coordinate) that break out as soon as the
    message is used up. */
module EncoderLoop {
  import opened Results
  import opened Pixels
  import opened Bitmaps
  import opened VisitOrder
  import opened Encoder

  /** When the loops end, either the message is used up or every pixel has
      been visited, so the result is the encoded copy. */
  lemma AllVisited(source: Bitmap, message: seq<Char16>, result: Bitmap, i: nat, row: nat)
    requires source.Valid()
    requires i <= |message| && i <= source.Capacity()
    requires EncodedUpTo(source, message, result, i)
    requires i == |message| || (row == source.width && i == Index(row, 0, source.height))
    ensures result == Encode(source, message)
  {
    if i < |message| {
      assert i == source.Capacity();
    }
    SameBitmap(result, Encode(source, message));
  }

  /** Indexing the message at `i` before the length check is the
      `IndexOutOfRange` failure; it can only happen on the first visit. */
  method EncodeMessageLoop(source: Bitmap, message: seq<Char16>) returns (r: Result<Bitmap>)
    requires source.Valid()
    ensures r == EncodeMessage(source, message)
  {
    var i: nat := 0;
    var result := source;
    var row: nat := 0;
    while row < source.width
      invariant row <= source.width
      invariant i == Index(row, 0, source.height)
      invariant i <= |message| && (0 < i ==> i < |message|)
      invariant i <= source.Capacity()
      invariant EncodedUpTo(source, message, result, i)
    {
      var col: nat := 0;
      while col < source.height
        invariant col <= source.height
        invariant i == Index(row, col, source.height)
        invariant i <= |message| && (0 < i ==> i < |message|)
        invariant i <= source.Capacity()
        invariant EncodedUpTo(source, message, result, i)
      {
        if i >= |message| {
          return Failure(IndexOutOfRange);
        }
        var pixel := source.GetPixel(row, col);
        var newPixel := AddCharToPixel(pixel, message[i]);
        EncodeStep(source, message, result, row, col);
        IndexInGrid(row, col, source.width, source.height);
        i := i + 1;
        result := result.SetPixel(row, col, newPixel);
        if i >= |message| {
          break;
        }
        col := col + 1;
      }
      if i >= |message| {
        break;
      }
      NextColumn(row, source.height);
      MulLeftMonotone(row + 1, source.width, source.height);
      row := row + 1;
    }
    AllVisited(source, message, result, i, row);
    return Success(result);
  }
}
