/** The array emitter: turns the monochrome frames into the text of a C
    header, one `PROGMEM` byte array per frame, an index array naming every
    frame and a count constant. */
module Emitter {
  import opened Bits
  import opened Packing
  import opened Text
  import opened Threshold

  /** The number of iterations of `range(n)`: none when n is zero or negative. */
  function Iterations(n: int): (r: nat)
    ensures n >= 0 ==> r == n
    ensures n < 0 ==> r == 0
  {
    if n < 0 then 0 else n
  }

  /** The frame has a pixel at every (x, y) the emitter's loops visit. */
  predicate Covers(frame: Bitmap, width: int, height: int)
  {
    && |frame| >= Iterations(height)
    && forall y :: 0 <= y < Iterations(height) ==> |frame[y]| >= Iterations(width)
  }

  predicate AllCover(frames: seq<Bitmap>, width: int, height: int)
  {
    forall i :: 0 <= i < |frames| ==> Covers(frames[i], width, height)
  }

  // ---------------------------------------------------------------------
  // One row
  // ---------------------------------------------------------------------

  /** The binary literal of every byte, in order. */
  function Literals(bytes: seq<nat>): (lits: seq<string>)
    ensures |lits| == |bytes|
  {
    seq(|bytes|, i requires 0 <= i < |bytes| => Binary8(bytes[i]))
  }

  /** Packing a further group of at most eight pixels onto a row whose length
      is a multiple of 8 appends exactly that group's byte. */
  lemma {:induction false} PackRowAppend(a: seq<bool>, g: seq<bool>)
    requires |a| % 8 == 0 && 0 < |g| <= 8
    ensures PackRow(a + g) == PackRow(a) + [PackGroup(g)]
    decreases |a|
  {
    if |a| == 0 {
      assert a + g == g;
    } else {
      assert (a + g)[..8] == a[..8];
      assert (a + g)[8..] == a[8..] + g;
      PackRowAppend(a[8..], g);
      if |a| == 8 {
        assert a[8..] + g == g && a[..8] == a;
      }
    }
  }

  /** Or-ing pixel x into the accumulator extends the group of pixels that
      the accumulator holds by that pixel. */
  lemma AccumulatePixel(row: seq<bool>, x: nat)
    requires x < |row|
    ensures PackGroup(row[x - x % 8..x + 1]) == Or(PackGroup(row[x - x % 8..x]), Shl(Bit(row[x]), 7 - x % 8))
  {
    var g := row[x - x % 8..x + 1];
    assert g[..|g| - 1] == row[x - x % 8..x];
  }

  /** Emitting the accumulator after pixel x, when that ends a group of eight
      or the row, appends the group's byte to the packed row. */
  lemma EmitGroup(row: seq<bool>, x: nat)
    requires x < |row|
    ensures PackRow(row[..x + 1]) == PackRow(row[..x - x % 8]) + [PackGroup(row[x - x % 8..x + 1])]
  {
    var start := x - x % 8;
    assert row[..x + 1] == row[..start] + row[start..x + 1];
    PackRowAppend(row[..start], row[start..x + 1]);
  }

  /** The state of the column loop before column x: the bytes emitted so far
      are the packed complete groups left of x, and the accumulator holds the
      pixels of the group x belongs to that lie left of x. */
  ghost predicate RowState(row: seq<bool>, x: nat, bytes: seq<nat>, acc: nat)
    requires x <= |row|
  {
    bytes == PackRow(row[..x - x % 8]) && acc == PackGroup(row[x - x % 8..x])
  }

  /** An iteration of the column loop that only or-s pixel x into the
      accumulator keeps RowState. */
  lemma AccumulateStep(row: seq<bool>, x: nat, bytes: seq<nat>, acc: nat)
    requires x + 1 < |row| && x % 8 != 7 && RowState(row, x, bytes, acc)
    ensures RowState(row, x + 1, bytes, Or(acc, Shl(Bit(row[x]), 7 - x % 8)))
  {
    var start := x - x % 8;
    assert x + 1 - (x + 1) % 8 == start by {
      ModSucc(x);
    }
    assert Or(acc, Shl(Bit(row[x]), 7 - x % 8)) == PackGroup(row[start..x + 1]) by {
      AccumulatePixel(row, x);
    }
  }

  /** Within a group of eight, the next column's offset in the group is one more. */
  lemma ModSucc(x: nat)
    requires x % 8 != 7
    ensures (x + 1) % 8 == x % 8 + 1
  {
    var q := x / 8;
    assert x == 8 * q + x % 8;
    assert x + 1 == 8 * q + (x % 8 + 1);
  }

  /** An iteration of the column loop that emits the accumulator after
      pixel x: the emitted bytes become the packed row up to x. */
  lemma EmitStep(row: seq<bool>, x: nat, bytes: seq<nat>, acc: nat)
    requires x < |row| && RowState(row, x, bytes, acc)
    ensures bytes + [Or(acc, Shl(Bit(row[x]), 7 - x % 8))] == PackRow(row[..x + 1])
  {
    var start := x - x % 8;
    var next := Or(acc, Shl(Bit(row[x]), 7 - x % 8));
    assert next == PackGroup(row[start..x + 1]) by {
      AccumulatePixel(row, x);
    }
    EmitGroup(row, x);
  }

  /** At a multiple of 8 the packed row so far and an empty accumulator are
      the loop's state. */
  lemma StartGroup(row: seq<bool>, x: nat, bytes: seq<nat>)
    requires x <= |row| && x % 8 == 0 && bytes == PackRow(row[..x])
    ensures RowState(row, x, bytes, 0)
  {
    assert row[x..x] == [];
  }

  /** Appending a byte appends its literal. */
  lemma LiteralsAppend(bytes: seq<nat>, b: nat)
    ensures Literals(bytes + [b]) == Literals(bytes) + [Binary8(b)]
  {
  }

  /** The inner loop of the emitter over the columns of one row: or-s each
      pixel's bit into an accumulator at position 7 - x % 8 and emits the
      accumulator, as a binary literal, after every eighth column and after
      the last one. The literals are those of the packed row. */
  method EncodeRow(row: seq<bool>, width: int) returns (rowBits: seq<string>)
    requires |row| >= Iterations(width)
    ensures rowBits == Literals(PackRow(row[..Iterations(width)]))
  {
    rowBits := [];
    ghost var bytes: seq<nat> := [];
    var acc: nat := 0;
    var x := 0;
    while x < width
      invariant 0 <= x <= Iterations(width)
      invariant rowBits == Literals(bytes)
      invariant x < width ==> RowState(row, x, bytes, acc)
      invariant x == Iterations(width) ==> bytes == PackRow(row[..x])
    {
      var bit := Bit(row[x]);
      ghost var before := acc;
      acc := Or(acc, Shl(bit, 7 - x % 8));
      if x % 8 == 7 || x == width - 1 {
        EmitStep(row, x, bytes, before);
        LiteralsAppend(bytes, acc);
        rowBits := rowBits + [Binary8(acc)];
        bytes := bytes + [acc];
        acc := 0;
        if x % 8 == 7 {
          StartGroup(row, x + 1, bytes);
        }
      } else {
        AccumulateStep(row, x, bytes, before);
      }
      x := x + 1;
    }
  }

  /** Digit j of the literal of byte i of a packed row shows pixel 8 * i + j
      of the row: '1' when that pixel is on, '0' when it is off or when the
      row ends before it. */
  lemma LiteralDigitIsPixel(p: seq<bool>, i: nat, j: nat)
    requires i < |PackRow(p)| && j < 8
    ensures |Literals(PackRow(p))[i]| == 10
    ensures Literals(PackRow(p))[i][2 + j] == (if 8 * i + j < |p| && p[8 * i + j] then '1' else '0')
  {
    var b := PackRow(p)[i];
    Binary8Literal(b);
    PackRowBits(p, i, 7 - j);
    assert Literals(PackRow(p))[i] == Binary8(b);
  }

  // ---------------------------------------------------------------------
  // The generated lines, before they are joined with newlines
  // ---------------------------------------------------------------------

  /** The name of frame idx's array. */
  function FrameName(prefix: string, idx: nat): string
  {
    prefix + NatToString(idx)
  }

  /** A frame's array name is the prefix followed by at least one decimal
      digit and nothing else. */
  lemma FrameNameDigits(prefix: string, idx: nat)
    ensures var name := FrameName(prefix, idx);
      && |prefix| < |name| && name[..|prefix|] == prefix
      && forall j :: |prefix| <= j < |name| ==> IsDecimalDigit(name[j])
  {
    var digits := NatToString(idx);
    SplitAppend(prefix, digits);
    assert forall j :: |prefix| <= j < |prefix| + |digits| ==> (prefix + digits)[j] == digits[j - |prefix|];
  }

  /** Different frames get different array names. */
  lemma FrameNamesDistinct(prefix: string, i: nat, j: nat)
    requires FrameName(prefix, i) == FrameName(prefix, j)
    ensures i == j
  {
    var si, sj := NatToString(i), NatToString(j);
    assert si == FrameName(prefix, i)[|prefix|..];
    assert sj == FrameName(prefix, j)[|prefix|..];
    NatToStringInjective(i, j);
  }

  /** The header comment: the number of frames and the size as given. */
  function HeaderLine(count: nat, width: int, height: int): string
  {
    "// Generated from GIF: " + NatToString(count) + (" frames, size " + IntToString(width) + "x" + IntToString(height))
  }

  /** The opening line of a frame's array, declaring it under `name`. */
  function DeclarationLine(name: string): string
  {
    "const uint8_t " + name + "[] PROGMEM = {"
  }

  /** The declaration is the type, the array's name right after it, and
      the opening of the initialiser. */
  lemma DeclarationName(name: string)
    ensures var line, start := DeclarationLine(name), |"const uint8_t "|;
      && |line| == start + |name| + |"[] PROGMEM = {"|
      && line[..start] == "const uint8_t "
      && line[start..start + |name|] == name
      && line[start + |name|..] == "[] PROGMEM = {"
  {
  }

  /** The line that closes a frame's array (a blank line follows it once the
      lines are joined). */
  const BlockEnd: string := "};\n"

  /** Row y of a frame: two spaces, its byte literals separated by ", ", and
      a comma unless it is the last row. */
  function RowLine(frame: Bitmap, y: nat, width: int, height: int): string
    requires Covers(frame, width, height) && y < Iterations(height)
  {
    "  " + Join(Literals(PackRow(frame[y][..Iterations(width)])), ", ") + (if y < height - 1 then "," else "")
  }

  /** The first `count` row lines of a frame. */
  function RowLines(frame: Bitmap, width: int, height: int, count: nat): (lines: seq<string>)
    requires Covers(frame, width, height) && count <= Iterations(height)
    ensures |lines| == count
  {
    seq(count, y requires 0 <= y < count => RowLine(frame, y, width, height))
  }

  /** Every line of frame idx's array: its declaration, one line per row, the close. */
  function FrameBlock(prefix: string, idx: nat, frame: Bitmap, width: int, height: int): (block: seq<string>)
    requires Covers(frame, width, height)
    ensures |block| == Iterations(height) + 2
  {
    [DeclarationLine(FrameName(prefix, idx))] + RowLines(frame, width, height, Iterations(height)) + [BlockEnd]
  }

  /** Where the block of frame i starts among the blocks, when every block
      has b lines: i * b, counted one block at a time. */
  function BlockOffset(i: nat, b: nat): nat
  {
    if i == 0 then 0 else BlockOffset(i - 1, b) + b
  }

  /** The parts one after another. */
  function Concat<T>(parts: seq<seq<T>>): (all: seq<T>)
  {
    if |parts| == 0 then [] else Concat(parts[..|parts| - 1]) + parts[|parts| - 1]
  }

  /** The concatenation of the first n + 1 parts extends that of the first
      n parts by part n. */
  lemma ConcatPrefix<T>(parts: seq<seq<T>>, n: nat)
    requires n < |parts|
    ensures Concat(parts[..n + 1]) == Concat(parts[..n]) + parts[n]
  {
    assert parts[..n + 1][..n] == parts[..n];
  }

  /** When every part has b elements, part i starts at BlockOffset(i, b) and
      element k of part i is element BlockOffset(i, b) + k of the whole. */
  lemma {:induction false} ConcatAt<T>(parts: seq<seq<T>>, b: nat, i: nat, k: nat)
    requires forall j :: 0 <= j < |parts| ==> |parts[j]| == b
    requires i < |parts| && k < b
    ensures |Concat(parts)| == BlockOffset(|parts|, b)
    ensures BlockOffset(i, b) + b <= |Concat(parts)|
    ensures Concat(parts)[BlockOffset(i, b) + k] == parts[i][k]
    decreases |parts|
  {
    var n := |parts| - 1;
    ConcatLength(parts[..n], b);
    if i < n {
      ConcatAt(parts[..n], b, i, k);
    }
  }

  /** When every part has b elements, the concatenation has BlockOffset(|parts|, b). */
  lemma {:induction false} ConcatLength<T>(parts: seq<seq<T>>, b: nat)
    requires forall j :: 0 <= j < |parts| ==> |parts[j]| == b
    ensures |Concat(parts)| == BlockOffset(|parts|, b)
    decreases |parts|
  {
    if |parts| > 0 {
      ConcatLength(parts[..|parts| - 1], b);
    }
  }

  /** The block of every frame, in frame order. */
  function FrameBlocks(frames: seq<Bitmap>, width: int, height: int, prefix: string): (blocks: seq<seq<string>>)
    requires AllCover(frames, width, height)
    ensures |blocks| == |frames|
    ensures forall j :: 0 <= j < |frames| ==> |blocks[j]| == Iterations(height) + 2
  {
    seq(|frames|, j requires 0 <= j < |frames| => FrameBlock(prefix, j, frames[j], width, height))
  }

  /** The arrays of all frames, in frame order. */
  function Blocks(frames: seq<Bitmap>, width: int, height: int, prefix: string): (lines: seq<string>)
    requires AllCover(frames, width, height)
    ensures |lines| == BlockOffset(|frames|, Iterations(height) + 2)
  {
    ConcatLength(FrameBlocks(frames, width, height, prefix), Iterations(height) + 2);
    Concat(FrameBlocks(frames, width, height, prefix))
  }

  /** One more row line extends the row lines by that line. */
  lemma RowLinesAppend(frame: Bitmap, width: int, height: int, y: nat)
    requires Covers(frame, width, height) && y < Iterations(height)
    ensures RowLines(frame, width, height, y + 1) == RowLines(frame, width, height, y) + [RowLine(frame, y, width, height)]
  {
  }

  /** The names of the first `count` frames, in order. */
  function FrameNames(prefix: string, count: nat): (names: seq<string>)
    ensures |names| == count
    ensures forall i, j :: 0 <= i < count && 0 <= j < count && names[i] == names[j] ==> i == j
  {
    var names := seq(count, i requires 0 <= i < count => FrameName(prefix, i));
    assert forall i, j :: 0 <= i < count && 0 <= j < count && names[i] == names[j] ==> i == j by {
      forall i, j | 0 <= i < count && 0 <= j < count && names[i] == names[j]
        ensures i == j
      {
        FrameNamesDistinct(prefix, i, j);
      }
    }
    names
  }

  /** The index array: the names of the first `count` frames, in order,
      between braces. */
  function ListLine(prefix: string, count: nat): string
  {
    "const uint8_t* const " + prefix + "List[] PROGMEM = {" + Join(FrameNames(prefix, count), ", ") + "};"
  }

  /** The count constant. */
  function CountLine(prefix: string, count: nat): string
  {
    "const uint8_t " + prefix + "Count = " + NatToString(count) + ";"
  }

  /** Every line of the generated header, before they are joined with newlines. */
  function CArrayLines(frames: seq<Bitmap>, width: int, height: int, prefix: string): (lines: seq<string>)
    requires AllCover(frames, width, height)
  {
    [HeaderLine(|frames|, width, height)]
      + Blocks(frames, width, height, prefix)
      + [ListLine(prefix, |frames|), CountLine(prefix, |frames|)]
  }

  /** An iteration of the loop over the frames appends the next part. */
  lemma ConcatStep<T>(head: seq<T>, parts: seq<seq<T>>, n: nat)
    requires n < |parts|
    ensures head + Concat(parts[..n]) + parts[n] == head + Concat(parts[..n + 1])
  {
    ConcatPrefix(parts, n);
  }

  /** Entry idx of the frame blocks is frame idx's block. */
  lemma FrameBlocksAt(frames: seq<Bitmap>, width: int, height: int, prefix: string, idx: nat)
    requires AllCover(frames, width, height) && idx < |frames|
    ensures FrameBlocks(frames, width, height, prefix)[idx] == FrameBlock(prefix, idx, frames[idx], width, height)
  {
  }

  /** After the last frame, the index array and the count complete the lines. */
  lemma FramesDone(frames: seq<Bitmap>, width: int, height: int, prefix: string, lines: seq<string>)
    requires AllCover(frames, width, height)
    requires lines
          == [HeaderLine(|frames|, width, height)] + Concat(FrameBlocks(frames, width, height, prefix)[..|frames|])
    ensures lines + [ListLine(prefix, |frames|), CountLine(prefix, |frames|)] == CArrayLines(frames, width, height, prefix)
  {
    var blocks := FrameBlocks(frames, width, height, prefix);
    assert blocks[..|frames|] == blocks;
  }

  // ---------------------------------------------------------------------
  // The emitter
  // ---------------------------------------------------------------------

  /** The body of the emitter's loop over the frames: the declaration of
      frame idx's array, then for every row its literals joined by ", " with
      a comma after every row but the last, then the close. */
  method EmitFrame(frame: Bitmap, idx: nat, width: int, height: int, prefix: string) returns (block: seq<string>)
    requires Covers(frame, width, height)
    ensures block == FrameBlock(prefix, idx, frame, width, height)
  {
    var name := prefix + NatToString(idx);
    var decl := DeclarationLine(name);
    block := [decl];
    var y := 0;
    while y < height
      invariant 0 <= y <= Iterations(height)
      invariant block == [decl] + RowLines(frame, width, height, y)
    {
      var rowBits := EncodeRow(frame[y], width);
      var comma := if y < height - 1 then "," else "";
      var line := "  " + Join(rowBits, ", ") + comma;
      assert line == RowLine(frame, y, width, height);
      RowLinesAppend(frame, width, height, y);
      block := block + [line];
      y := y + 1;
    }
    block := block + [BlockEnd];
  }

  /** The emitter: the header comment, then for every frame its declaration,
      one line per row and the close, then the index array and the count,
      all joined with newlines. */
  method BitmapToCArray(frames: seq<Bitmap>, width: int, height: int, prefix: string) returns (code: string)
    requires AllCover(frames, width, height)
    ensures code == Join(CArrayLines(frames, width, height, prefix), "\n")
  {
    var header := HeaderLine(|frames|, width, height);
    var lines := [header];
    var idx := 0;
    while idx < |frames|
      invariant 0 <= idx <= |frames|
      invariant lines == [header] + Concat(FrameBlocks(frames, width, height, prefix)[..idx])
    {
      var block := EmitFrame(frames[idx], idx, width, height, prefix);
      FrameBlocksAt(frames, width, height, prefix, idx);
      ConcatStep([header], FrameBlocks(frames, width, height, prefix), idx);
      lines := lines + block;
      idx := idx + 1;
    }
    FramesDone(frames, width, height, prefix, lines);
    lines := lines + [ListLine(prefix, |frames|), CountLine(prefix, |frames|)];
    code := Join(lines, "\n");
  }
}

/** Properties of the generated lines, stated on the line-level specification
    the emitter is proved to produce. */
module EmitterLayout {
  import opened Packing
  import opened Text
  import opened Threshold
  import opened Emitter

  /** The offset of block i is i * b. */
  lemma {:induction false} BlockOffsetIsProduct(i: nat, b: nat)
    ensures BlockOffset(i, b) == i * b
  {
    if i > 0 {
      BlockOffsetIsProduct(i - 1, b);
      assert i * b == (i - 1) * b + b;
    }
  }

  /** Frame i's block occupies the b lines of the blocks from BlockOffset(i, b)
      on, where b = Iterations(height) + 2: line k of the block is line
      BlockOffset(i, b) + k of the blocks. */
  lemma BlocksAt(frames: seq<Bitmap>, width: int, height: int, prefix: string, i: nat, k: nat)
    requires AllCover(frames, width, height) && i < |frames| && k < Iterations(height) + 2
    ensures var b := Iterations(height) + 2;
      var start := BlockOffset(i, b);
      && start + b <= |Blocks(frames, width, height, prefix)|
      && Blocks(frames, width, height, prefix)[start + k] == FrameBlock(prefix, i, frames[i], width, height)[k]
  {
    var blocks := FrameBlocks(frames, width, height, prefix);
    ConcatAt(blocks, Iterations(height) + 2, i, k);
    assert Blocks(frames, width, height, prefix) == Concat(blocks);
    assert blocks[i] == FrameBlock(prefix, i, frames[i], width, height);
  }

  /** The line list, before the join, has a header line, exactly
      Iterations(height) + 2 entries per frame, the index array and the
      count, in that order. Each block's last entry is the close `};` with
      its own newline, so the joined text has a blank line after every
      block as well. */
  lemma CArrayLayout(frames: seq<Bitmap>, width: int, height: int, prefix: string)
    requires AllCover(frames, width, height)
    ensures var lines := CArrayLines(frames, width, height, prefix);
      && |lines| == |frames| * (Iterations(height) + 2) + 3
      && lines[0] == HeaderLine(|frames|, width, height)
      && lines[|lines| - 2] == ListLine(prefix, |frames|)
      && lines[|lines| - 1] == CountLine(prefix, |frames|)
  {
    BlockOffsetIsProduct(|frames|, Iterations(height) + 2);
  }

  /** Frame i's block starts at entry 1 + BlockOffset(i, b) of the line
      list, where b = Iterations(height) + 2, that is at 1 + i * b
      (BlockOffsetIsProduct). Its first line declares the array named
      prefix + str(i), which is the index array's i-th entry. */
  lemma FrameDeclaration(frames: seq<Bitmap>, width: int, height: int, prefix: string, i: nat)
    requires AllCover(frames, width, height) && i < |frames|
    ensures var lines := CArrayLines(frames, width, height, prefix);
      var start := 1 + BlockOffset(i, Iterations(height) + 2);
      && start + Iterations(height) + 2 <= |lines| - 2
      && lines[start] == DeclarationLine(FrameName(prefix, i))
      && FrameNames(prefix, |frames|)[i] == FrameName(prefix, i)
  {
    FrameBlockEnds(prefix, i, frames[i], width, height);
    FrameLine(frames, width, height, prefix, i, 0);
  }

  /** The last of frame i's Iterations(height) + 2 entries closes its array. */
  lemma FrameClose(frames: seq<Bitmap>, width: int, height: int, prefix: string, i: nat)
    requires AllCover(frames, width, height) && i < |frames|
    ensures var lines := CArrayLines(frames, width, height, prefix);
      var end := 1 + BlockOffset(i, Iterations(height) + 2) + Iterations(height) + 1;
      && end < |lines| - 2
      && lines[end] == BlockEnd
  {
    FrameBlockEnds(prefix, i, frames[i], width, height);
    FrameLine(frames, width, height, prefix, i, Iterations(height) + 1);
  }

  /** Line k of frame i's block is entry 1 + BlockOffset(i, b) + k of the
      line list. */
  lemma FrameLine(frames: seq<Bitmap>, width: int, height: int, prefix: string, i: nat, k: nat)
    requires AllCover(frames, width, height) && i < |frames| && k < Iterations(height) + 2
    ensures var b := Iterations(height) + 2;
      var lines := CArrayLines(frames, width, height, prefix);
      && 1 + BlockOffset(i, b) + b <= |lines| - 2
      && lines[1 + BlockOffset(i, b) + k] == FrameBlock(prefix, i, frames[i], width, height)[k]
  {
    var b := Iterations(height) + 2;
    var s := BlockOffset(i, b);
    BlocksAt(frames, width, height, prefix, i, k);
    HeaderThenBlocks(frames, width, height, prefix);
    assert CArrayLines(frames, width, height, prefix)[1 + (s + k)] == Blocks(frames, width, height, prefix)[s + k];
  }

  /** The blocks follow the header line and precede the last two lines. */
  lemma HeaderThenBlocks(frames: seq<Bitmap>, width: int, height: int, prefix: string)
    requires AllCover(frames, width, height)
    ensures var lines := CArrayLines(frames, width, height, prefix);
      var blocks := Blocks(frames, width, height, prefix);
      && |lines| == |blocks| + 3
      && forall k :: 0 <= k < |blocks| ==> lines[1 + k] == blocks[k]
  {
    var blocks := Blocks(frames, width, height, prefix);
    var tail := [ListLine(prefix, |frames|), CountLine(prefix, |frames|)];
    AppendIndex([HeaderLine(|frames|, width, height)], blocks, tail);
  }

  /** The elements of the middle part of a three-part concatenation. */
  lemma AppendIndex<T>(head: seq<T>, mid: seq<T>, tail: seq<T>)
    ensures |head + mid + tail| == |head| + |mid| + |tail|
    ensures forall k :: 0 <= k < |mid| ==> (head + mid + tail)[|head| + k] == mid[k]
  {
  }

  /** A frame's block opens with the declaration of its array and ends with
      the close. */
  lemma FrameBlockEnds(prefix: string, idx: nat, frame: Bitmap, width: int, height: int)
    requires Covers(frame, width, height)
    ensures var block := FrameBlock(prefix, idx, frame, width, height);
      && block[0] == DeclarationLine(FrameName(prefix, idx))
      && block[Iterations(height) + 1] == BlockEnd
  {
  }

  /** Line 1 + y of a frame's block is row y. */
  lemma FrameBlockRow(prefix: string, idx: nat, frame: Bitmap, width: int, height: int, y: nat)
    requires Covers(frame, width, height) && y < Iterations(height)
    ensures FrameBlock(prefix, idx, frame, width, height)[1 + y] == RowLine(frame, y, width, height)
  {
    var rows := RowLines(frame, width, height, Iterations(height));
    assert FrameBlock(prefix, idx, frame, width, height)[1 + y] == rows[y];
  }

  /** Every row line but the last of a frame ends in a comma; the last does not. */
  lemma RowLineComma(frame: Bitmap, y: nat, width: int, height: int)
    requires Covers(frame, width, height) && y < Iterations(height)
    ensures var line := RowLine(frame, y, width, height);
      && |line| >= 2
      && line[..2] == "  "
      && (y < height - 1 <==> line[|line| - 1] == ',')
  {
    var lits := Literals(PackRow(frame[y][..Iterations(width)]));
    var joined := Join(lits, ", ");
    var line := RowLine(frame, y, width, height);
    SplitAppend("  ", joined + (if y < height - 1 then "," else ""));
    assert line == "  " + (joined + (if y < height - 1 then "," else ""));
    if y == height - 1 {
      assert line == "  " + joined;
      if |lits| > 0 {
        var last := lits[|lits| - 1];
        assert last == Binary8(PackRow(frame[y][..Iterations(width)])[|lits| - 1]);
        assert last[|last| - 1] == '0' || last[|last| - 1] == '1';
        assert joined[|joined| - 1] == last[|last| - 1];
      }
    }
  }

  /** With no frames there are no arrays: the header, an empty index array
      and a count of zero. */
  lemma NoFrames(width: int, height: int, prefix: string)
    ensures CArrayLines([], width, height, prefix) == [
      "// Generated from GIF: " + "0" + (" frames, size " + IntToString(width) + "x" + IntToString(height)),
      "const uint8_t* const " + prefix + "List[] PROGMEM = {" + "" + "};",
      "const uint8_t " + prefix + "Count = " + "0" + ";"]
  {
    assert CArrayLines([], width, height, prefix)
        == [HeaderLine(0, width, height), ListLine(prefix, 0), CountLine(prefix, 0)];
    assert NatToString(0) == "0";
    assert Join(FrameNames(prefix, 0), ", ") == "";
  }

  /** Between the opening brace and the closing `};`, the index array holds
      the frames' names joined by ", ". */
  lemma ListLineNames(prefix: string, count: nat)
    ensures var line := ListLine(prefix, count);
      var start := |"const uint8_t* const "| + |prefix| + |"List[] PROGMEM = {"|;
      && start + 2 <= |line|
      && line[..start] == "const uint8_t* const " + prefix + "List[] PROGMEM = {"
      && line[start..|line| - 2] == Join(FrameNames(prefix, count), ", ")
      && line[|line| - 2..] == "};"
  {
    var head := "const uint8_t* const " + prefix + "List[] PROGMEM = {";
    var names := Join(FrameNames(prefix, count), ", ");
    assert ListLine(prefix, count) == head + names + "};";
    SplitAppend(head, names);
    SplitAppend(head + names, "};");
    SplitPrefix(head, names, |head|);
  }

  /** The count constant's digits denote the number of frames. */
  lemma CountLineValue(prefix: string, count: nat)
    ensures var line := CountLine(prefix, count);
      var start := |"const uint8_t "| + |prefix| + |"Count = "|;
      && start < |line| - 1
      && line[|line| - 1] == ';'
      && (forall j :: start <= j < |line| - 1 ==> IsDecimalDigit(line[j]))
      && DecimalValue(line[start..|line| - 1]) == count
  {
    var line := CountLine(prefix, count);
    var start := |"const uint8_t "| + |prefix| + |"Count = "|;
    assert line[start..|line| - 1] == NatToString(count);
    NatToStringValue(count);
  }

  /** The header is its fixed text, the number of frames in decimal (which
      reads back as that number), then the size as width x height. */
  lemma HeaderCount(count: nat, width: int, height: int)
    ensures var line := HeaderLine(count, width, height);
      var digits := NatToString(count);
      var head := "// Generated from GIF: ";
      && |head| + |digits| < |line|
      && line[..|head| + |digits|] == head + digits
      && line[|head| + |digits|..] == " frames, size " + IntToString(width) + "x" + IntToString(height)
      && DecimalValue(digits) == count
  {
    var head := "// Generated from GIF: ";
    var digits := NatToString(count);
    var rest := " frames, size " + IntToString(width) + "x" + IntToString(height);
    SplitAppend(head + digits, rest);
    NatToStringValue(count);
  }

  /** The header ends with the width's text, an `x` and the height's text,
      and the two texts read back as width and height (negative ones too). */
  lemma HeaderSize(count: nat, width: int, height: int)
    ensures var line := HeaderLine(count, width, height);
      var w, h := IntToString(width), IntToString(height);
      && |w| + 1 + |h| < |line|
      && line[|line| - |h|..] == h
      && line[|line| - |h| - 1] == 'x'
      && line[|line| - |h| - 1 - |w|..|line| - |h| - 1] == w
      && IntValue(w) == width
      && IntValue(h) == height
  {
    HeaderEnds(count, width, height);
    IntToStringValue(width);
    IntToStringValue(height);
  }

  /** The header's last pieces: the width's text, `x`, the height's text. */
  lemma HeaderEnds(count: nat, width: int, height: int)
    ensures var line := HeaderLine(count, width, height);
      var w, h := IntToString(width), IntToString(height);
      && |w| + 1 + |h| < |line|
      && line[|line| - |h|..] == h
      && line[|line| - |h| - 1] == 'x'
      && line[|line| - |h| - 1 - |w|..|line| - |h| - 1] == w
  {
    SplitEnd("// Generated from GIF: " + NatToString(count), " frames, size ", IntToString(width), 'x', IntToString(height));
  }

  /** The last pieces of a + (b + w + [c] + h), located from the end. */
  lemma SplitEnd<T>(a: seq<T>, b: seq<T>, w: seq<T>, c: T, h: seq<T>)
    ensures var line := a + (b + w + [c] + h);
      && |a| + |b| + |w| + 1 + |h| == |line|
      && line[|line| - |h|..] == h
      && line[|line| - |h| - 1] == c
      && line[|line| - |h| - 1 - |w|..|line| - |h| - 1] == w
  {
    var line := a + (b + w + [c] + h);
    assert line[|line| - |h|..] == h;
    assert line[|line| - |h| - 1 - |w|..|line| - |h| - 1] == w by {
      assert line[..|line| - |h| - 1] == a + b + w;
    }
  }
}
