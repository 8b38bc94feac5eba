/** The single-line edit box of deploy/ui.go: a UTF-8 buffer edited in place and a cursor whose byte,
    cell and rune offsets are all cached. */
module EditBox {
  import opened Wrappers
  import opened Utf8

  const TAB_STOP := 8
  const THRESHOLD := 5
  const TAB: Scalar := 9

  /** Cells a rune takes when drawn at column `pos`; `width` is the terminal's rune width. */
  function Advance(width: int -> nat, r: int, pos: nat): nat {
    if r == TAB then TAB_STOP - pos % TAB_STOP else width(r)
  }

  /** The column after a text. */
  function Columns(width: int -> nat, rs: seq<int>): nat {
    if rs == [] then 0
    else
      var v := Columns(width, rs[..|rs| - 1]);
      v + Advance(width, rs[|rs| - 1], v)
  }

  // ------------------------------------------------------------ what the user edits

  /** The runes of the line and the number of runes before the cursor. */
  datatype Line = Line(runes: seq<Scalar>, cursor: nat) {
    predicate Valid() { cursor <= |runes| }
  }

  datatype Key = Left | Right | Backspace | DeleteKey | KillLine | Home | EndKey | Insert(r: int)

  function Press(l: Line, k: Key): (l': Line)
    requires l.Valid()
    ensures l'.Valid()
  {
    match k
    case Left => if l.cursor == 0 then l else l.(cursor := l.cursor - 1)
    case Right => if l.cursor == |l.runes| then l else l.(cursor := l.cursor + 1)
    case Backspace =>
      if l.cursor == 0 then l else Line(l.runes[..l.cursor - 1] + l.runes[l.cursor..], l.cursor - 1)
    case DeleteKey =>
      if l.cursor == |l.runes| then l else Line(l.runes[..l.cursor] + l.runes[l.cursor + 1..], l.cursor)
    case KillLine => Line(l.runes[..l.cursor], l.cursor)
    case Home => l.(cursor := 0)
    case EndKey => l.(cursor := |l.runes|)
    case Insert(r) => Line(l.runes[..l.cursor] + [Canon(r)] + l.runes[l.cursor..], l.cursor + 1)
  }

  function PressAll(l: Line, ks: seq<Key>): (l': Line)
    requires l.Valid()
    ensures l'.Valid()
  {
    if ks == [] then l else Press(PressAll(l, ks[..|ks| - 1]), ks[|ks| - 1])
  }

  // ------------------------------------------------------------ in-place slices

  /** `copy` inside one array, source and destination overlapping: every byte is read before it is written. */
  method Move(a: array<byte>, dst: nat, src: nat, n: nat)
    requires dst + n <= a.Length && src + n <= a.Length
    modifies a
    ensures a[dst..dst + n] == old(a[src..src + n])
    ensures a[..dst] == old(a[..dst]) && a[dst + n..] == old(a[dst + n..])
  {
    forall i | 0 <= i < n {
      a[dst + i] := a[src + i];
    }
  }

  /** byte_slice_grow: the same bytes in an array of the desired capacity. */
  method SliceGrow(a: array<byte>, len: nat, desired: nat) returns (b: array<byte>)
    requires len <= a.Length && len <= desired
    ensures if desired <= a.Length then b == a else fresh(b)
    ensures desired <= b.Length && b[..len] == a[..len]
  {
    b := a;
    if a.Length < desired {
      b := new byte[desired](_ => 0);
      forall i | 0 <= i < len {
        b[i] := a[i];
      }
    }
  }

  /** The tail moved up to `shifted`, then `what` written before it. */
  lemma Spliced(first: Bytes, shifted: Bytes, spliced: Bytes, len: nat, offset: nat, what: Bytes)
    requires offset <= len && len + |what| <= |first| == |shifted| == |spliced|
    requires shifted[offset + |what|..len + |what|] == first[offset..len]
    requires shifted[..offset + |what|] == first[..offset + |what|]
    requires spliced[offset..offset + |what|] == what
    requires spliced[..offset] == shifted[..offset] && spliced[offset + |what|..] == shifted[offset + |what|..]
    ensures spliced[..len + |what|] == first[..offset] + what + first[offset..len]
  {
    var m := |what|;
    assert first[..offset] == first[..offset + m][..offset] == shifted[..offset];
    assert spliced[offset + m..len + m] == spliced[offset + m..][..len - offset]
        == shifted[offset + m..][..len - offset] == shifted[offset + m..len + m];
    assert spliced[..len + m] == spliced[..offset] + spliced[offset..offset + m] + spliced[offset + m..len + m];
  }

  /** The two copies of byte_slice_insert, in an array that is large enough. */
  method InsertInto(b: array<byte>, len: nat, offset: nat, what: Bytes)
    requires offset <= len && len + |what| <= b.Length
    modifies b
    ensures b[..len + |what|] == old(b[..offset]) + what + old(b[offset..len])
  {
    ghost var before := b[..];
    Move(b, offset + |what|, offset, len - offset);
    ghost var shifted := b[..];
    Overwrite(b, offset, what);
    Spliced(before, shifted, b[..], len, offset, what);
  }

  /** `copy` of other bytes into an array. */
  method Overwrite(b: array<byte>, offset: nat, what: Bytes)
    requires offset + |what| <= b.Length
    modifies b
    ensures b[offset..offset + |what|] == what
    ensures b[..offset] == old(b[..offset]) && b[offset + |what|..] == old(b[offset + |what|..])
  {
    forall i | 0 <= i < |what| {
      b[offset + i] := what[i];
    }
  }

  /** byte_slice_insert on the slice `a[..len]`: grow if the capacity is too small, shift the tail, copy in. */
  method SliceInsert(a: array<byte>, len: nat, offset: nat, what: Bytes) returns (b: array<byte>, newLen: nat)
    requires offset <= len <= a.Length
    modifies a
    ensures b == a || fresh(b)
    ensures newLen == len + |what| <= b.Length
    ensures b[..newLen] == old(a[..offset]) + what + old(a[offset..len])
  {
    newLen := len + |what|;
    b := SliceGrow(a, len, newLen);
    assert b[..offset] == b[..len][..offset] && b[offset..len] == b[..len][offset..];
    assert a[..offset] == a[..len][..offset] && a[offset..len] == a[..len][offset..];
    InsertInto(b, len, offset, what);
  }

  /** byte_slice_remove on the slice `a[..len]`. */
  method SliceRemove(a: array<byte>, len: nat, start: nat, end: nat) returns (newLen: nat)
    requires start <= end <= len <= a.Length
    modifies a
    ensures newLen == len - (end - start)
    ensures a[..newLen] == old(a[..start]) + old(a[end..len])
  {
    newLen := len - (end - start);
    Move(a, start, end, len - end);
    assert a[..newLen] == a[..start] + a[start..start + (len - end)];
  }

  lemma ColumnsSnoc(width: int -> nat, rs: seq<int>, r: int)
    ensures var v := Columns(width, rs); Columns(width, rs + [r]) == v + Advance(width, r, v)
    ensures Columns(width, []) == 0
  {
    assert (rs + [r])[..|rs|] == rs;
  }

  lemma DecodedSnoc(text: Bytes, done: seq<int>, rest: Bytes)
    requires rest != [] && DecodeAll(text) == done + DecodeAll(rest)
    ensures DecodeAll(text) == done + [DecodeRune(rest).0] + DecodeAll(rest[DecodeRune(rest).1..])
  {
    hide DecodeRune;
  }

  /** voffset_coffset on any bytes: columns and runes, by decoding from the front. */
  method Measure(width: int -> nat, text: Bytes) returns (voffset: nat, coffset: nat)
    ensures voffset == Columns(width, DecodeAll(text)) && coffset == |DecodeAll(text)|
  {
    hide DecodeRune, Advance;
    voffset, coffset := 0, 0;
    var rest := text;
    ghost var done: seq<int> := [];
    while |rest| > 0
      invariant DecodeAll(text) == done + DecodeAll(rest)
      invariant voffset == Columns(width, done) && coffset == |done|
      decreases |rest|
    {
      var (r, size) := DecodeRune(rest);
      DecodedSnoc(text, done, rest);
      ColumnsSnoc(width, done, r);
      done := done + [r];
      rest := rest[size..];
      coffset := coffset + 1;
      voffset := voffset + Advance(width, r, voffset);
    }
    assert done + [] == done;
  }

  /** Go's integer division, which truncates. */
  function TruncDiv(a: int, b: int): int
    requires b > 0
  {
    if a >= 0 then a / b else -(-a / b)
  }

  // ------------------------------------------------------------ the box

  class EditBox {
    const width: int -> nat
    var data: array<byte>
    var len: nat
    var lineVOffset: int
    var cursorB: nat
    var cursorV: nat
    var cursorC: nat
    ghost var runes: seq<Scalar>

    /** The text is the UTF-8 form of `runes`, the cursor stands on a rune boundary, and both cached
        offsets are those of the prefix before it. */
    ghost predicate Valid()
      reads this, data
    {
      && len <= data.Length && data[..len] == EncodeAll(runes)
      && cursorC <= |runes|
      && cursorB == Offset(runes, cursorC)
      && cursorV == Columns(width, runes[..cursorC])
    }

    ghost function Value(): Line
      reads this
    {
      Line(runes, cursorC)
    }

    constructor (width: int -> nat)
      ensures Valid() && Value() == Line([], 0) && fresh(data) && lineVOffset == 0 && this.width == width
    {
      this.width := width;
      data := new byte[0];
      len, lineVOffset, cursorB, cursorV, cursorC, runes := 0, 0, 0, 0, 0, [];
    }

    /** The facts about the bytes around the cursor that every method starts from. */
    lemma Around()
      requires Valid()
      ensures cursorB <= len
      ensures data[..cursorB] == EncodeAll(runes[..cursorC]) && data[cursorB..len] == EncodeAll(runes[cursorC..])
      ensures cursorC < |runes| <==> cursorB < len
      ensures cursorC > 0 <==> cursorB > 0
    {
      hide Encode, Columns;
      CutAt(runes, cursorC);
      assert data[..len][..cursorB] == data[..cursorB] && data[..len][cursorB..] == data[cursorB..len];
      if cursorC > 0 {
        var p := runes[..cursorC];
        assert EncodeAll(p) == EncodeAll(p[..cursorC - 1]) + Encode(p[cursorC - 1]);
      }
    }

    /** The cached offsets are what decoding the bytes before the cursor gives. */
    ghost predicate Measured()
      reads this, data
    {
      && cursorB <= len <= data.Length
      && cursorV == Columns(width, DecodeAll(data[..cursorB])) && cursorC == |DecodeAll(data[..cursorB])|
    }

    /** Lines 159-162, for any byte offset, also one inside a rune. */
    method MoveCursorTo(boffset: nat)
      requires boffset <= len <= data.Length
      modifies this`cursorB, this`cursorV, this`cursorC
      ensures cursorB == boffset && Measured()
    {
      cursorB := boffset;
      cursorV, cursorC := Measure(width, data[..boffset]);
    }

    /** At the offset of rune `k` the measured cursor is the one before rune `k`. */
    lemma AtRune(k: nat)
      requires Measured() && data[..len] == EncodeAll(runes) && k <= |runes| && cursorB == Offset(runes, k)
      ensures Valid() && cursorC == k
    {
      hide Encode, DecodeRune, EncodeAll;
      CutAt(runes, k);
      assert data[..cursorB] == data[..len][..cursorB];
      DecodeAllEncoded(runes[..k]);
    }

    /** The rune under the cursor, if there is one, and where it ends. */
    lemma UnderCursor()
      requires Valid() && cursorC < |runes|
      ensures cursorB + |Encode(runes[cursorC])| == Offset(runes, cursorC + 1) <= len
      ensures cursorB <= len && DecodeRune(data[cursorB..len]) == (runes[cursorC], |Encode(runes[cursorC])|)
    {
      hide Encode, EncodeAll, DecodeRune, Columns;
      DecodeAt(runes, cursorC);
      OffsetNext(runes, cursorC);
      CutAt(runes, cursorC + 1);
      assert data[..len][cursorB..] == data[cursorB..len];
    }

    method RuneUnderCursor() returns (r: int, size: nat)
      requires Valid()
      ensures cursorC < |runes| ==> r == runes[cursorC] && cursorB + size == Offset(runes, cursorC + 1) <= len
    {
      hide Encode, EncodeAll, DecodeRune, Columns;
      Around();
      if cursorC < |runes| {
        UnderCursor();
      }
      var p := DecodeRune(data[cursorB..len]);
      r, size := p.0, p.1;
    }

    method RuneBeforeCursor() returns (r: int, size: nat)
      requires Valid()
      ensures cursorC > 0 ==> r == runes[cursorC - 1] && size <= cursorB && Offset(runes, cursorC - 1) == cursorB - size
    {
      hide Encode, DecodeRune, DecodeLastRune, Columns;
      Around();
      if cursorC > 0 {
        var p := runes[..cursorC];
        assert p[..cursorC - 1] == runes[..cursorC - 1];
        DecodeLastAt(EncodeAll(runes[..cursorC - 1]), runes[cursorC - 1]);
        OffsetNext(runes, cursorC - 1);
      }
      var p := DecodeLastRune(data[..cursorB]);
      r, size := p.0, p.1;
    }

    method MoveCursorOneRuneBackward()
      requires Valid()
      modifies this`cursorB, this`cursorV, this`cursorC
      ensures Valid() && Value() == Press(old(Value()), Left)
    {
      hide Encode, EncodeAll, DecodeRune, DecodeAll, Columns;
      Around();
      if cursorB == 0 {
        return;
      }
      var _, size := RuneBeforeCursor();
      ghost var k := cursorC - 1;
      MoveCursorTo(cursorB - size);
      AtRune(k);
    }

    /** The same move when there is a rune before the cursor. */
    method StepBack()
      requires Valid() && cursorC > 0
      modifies this`cursorB, this`cursorV, this`cursorC
      ensures Valid() && cursorC == old(cursorC) - 1
    {
      MoveCursorOneRuneBackward();
    }

    method MoveCursorOneRuneForward()
      requires Valid()
      modifies this`cursorB, this`cursorV, this`cursorC
      ensures Valid() && Value() == Press(old(Value()), Right)
    {
      hide Encode, EncodeAll, DecodeRune, DecodeAll, Columns;
      Around();
      if cursorB == len {
        return;
      }
      var _, size := RuneUnderCursor();
      ghost var k := cursorC + 1;
      MoveCursorTo(cursorB + size);
      AtRune(k);
    }

    method MoveCursorToBeginningOfTheLine()
      requires Valid()
      modifies this`cursorB, this`cursorV, this`cursorC
      ensures Valid() && Value() == Press(old(Value()), Home)
    {
      assert runes[..0] == [];
      assert Offset(runes, 0) == 0;
      MoveCursorTo(0);
      AtRune(0);
    }

    method MoveCursorToEndOfTheLine()
      requires Valid()
      modifies this`cursorB, this`cursorV, this`cursorC
      ensures Valid() && Value() == Press(old(Value()), EndKey)
    {
      assert runes[..|runes|] == runes;
      assert Offset(runes, |runes|) == len;
      MoveCursorTo(len);
      AtRune(|runes|);
    }

    /** What is left of the bytes when the rune under the cursor is cut out. */
    lemma WithoutRune(next: nat)
      requires Valid() && cursorC < |runes| && next == Offset(runes, cursorC + 1)
      ensures cursorB <= next <= len
      ensures data[..cursorB] + data[next..len] == EncodeAll(runes[..cursorC] + runes[cursorC + 1..])
    {
      OffsetNext(runes, cursorC);
      CutOneOut(runes, cursorC, next);
      assert data[..len][..cursorB] == data[..cursorB] && data[..len][next..] == data[next..len];
    }

    /** Without the rune under the cursor the cached offsets are still those of the cursor. */
    lemma CursorStays()
      requires Valid() && cursorC < |runes|
      ensures var kept := runes[..cursorC] + runes[cursorC + 1..];
        cursorB == Offset(kept, cursorC) && cursorV == Columns(width, kept[..cursorC])
    {
      assert (runes[..cursorC] + runes[cursorC + 1..])[..cursorC] == runes[..cursorC];
    }

    /** Remove the rune under the cursor, which exists. */
    method RemoveUnderCursor()
      requires Valid() && cursorC < |runes|
      modifies this`len, this`runes, data
      ensures Valid() && runes == old(runes[..cursorC] + runes[cursorC + 1..])
    {
      hide Encode, EncodeAll, DecodeRune, DecodeAll, Columns;
      var _, size := RuneUnderCursor();
      ReadyToCut(size);
      CutOut(size, runes[..cursorC] + runes[cursorC + 1..]);
    }

    /** `kept` is what the bytes around a cut of `size` bytes at the cursor spell, and the cursor is right for it. */
    ghost predicate Spells(size: nat, kept: seq<Scalar>)
      reads this, data
    {
      && cursorB + size <= len <= data.Length && cursorC <= |kept|
      && data[..cursorB] + data[cursorB + size..len] == EncodeAll(kept)
      && cursorB == Offset(kept, cursorC) && cursorV == Columns(width, kept[..cursorC])
    }

    lemma ReadyToCut(size: nat)
      requires Valid() && cursorC < |runes| && cursorB + size == Offset(runes, cursorC + 1)
      ensures Spells(size, runes[..cursorC] + runes[cursorC + 1..])
    {
      WithoutRune(cursorB + size);
      CursorStays();
    }

    /** The in-place part of a removal. */
    method CutOut(size: nat, ghost kept: seq<Scalar>)
      requires Spells(size, kept)
      modifies this`len, this`runes, data
      ensures Valid() && runes == kept
    {
      hide Encode, EncodeAll, DecodeRune, DecodeAll, Columns;
      len := SliceRemove(data, len, cursorB, cursorB + size);
      runes := kept;
    }

    /** Step back over the rune before the cursor and remove it. */
    method DeleteBehind()
      requires Valid() && cursorC > 0
      modifies this`cursorB, this`cursorV, this`cursorC, this`len, this`runes, data
      ensures Valid() && runes == old(runes[..cursorC - 1] + runes[cursorC..]) && cursorC == old(cursorC) - 1
    {
      hide Encode, EncodeAll, DecodeRune, DecodeAll, Columns;
      StepBack();
      RemoveUnderCursor();
    }

    method DeleteRuneBackward()
      requires Valid()
      modifies this, data
      ensures Valid() && Value() == Press(old(Value()), Backspace)
      ensures lineVOffset == old(lineVOffset) && data == old(data)
    {
      hide Encode, EncodeAll, DecodeRune, DecodeAll, Columns;
      Around();
      if cursorB == 0 {
        return;
      }
      DeleteBehind();
    }

    method DeleteRuneForward()
      requires Valid()
      modifies this, data
      ensures Valid() && Value() == Press(old(Value()), DeleteKey)
      ensures lineVOffset == old(lineVOffset) && data == old(data)
    {
      hide Encode, EncodeAll, DecodeRune, DecodeAll, Columns;
      Around();
      if cursorB == len {
        return;
      }
      RemoveUnderCursor();
    }

    method DeleteTheRestOfTheLine()
      requires Valid()
      modifies this`len, this`runes
      ensures Valid() && Value() == Press(old(Value()), KillLine)
    {
      hide Encode, EncodeAll, DecodeRune, DecodeAll, Columns;
      Around();
      len := cursorB;
      runes := runes[..cursorC];
      assert runes[..cursorC] == runes;
    }

    /** The bytes of the line with one more rune at the cursor. */
    lemma WithRune(c: Scalar)
      requires Valid()
      ensures cursorB <= len
      ensures data[..cursorB] + Encode(c) + data[cursorB..len] == EncodeAll(runes[..cursorC] + [c] + runes[cursorC..])
    {
      hide Encode, Columns;
      Around();
      var before, after := runes[..cursorC], runes[cursorC..];
      assert (before + [c])[..cursorC] == before;
      assert EncodeAll(before + [c]) == EncodeAll(before) + Encode(c);
      EncodeAppend(before + [c], after);
    }

    /** Insert the rune, the cursor still before it. */
    method InsertAtCursor(c: Scalar)
      requires Valid()
      modifies this`data, this`len, this`runes, data
      ensures Valid() && runes == old(runes[..cursorC] + [c] + runes[cursorC..])
      ensures data == old(data) || fresh(data)
    {
      hide Encode, EncodeAll, DecodeRune, DecodeAll, Columns;
      WithRune(c);
      ghost var longer := runes[..cursorC] + [c] + runes[cursorC..];
      data, len := SliceInsert(data, len, cursorB, Encode(c));
      assert longer[..cursorC] == runes[..cursorC];
      runes := longer;
    }

    method InsertRune(r: int)
      requires Valid()
      modifies this, data
      ensures Valid() && Value() == Press(old(Value()), Insert(r))
      ensures lineVOffset == old(lineVOffset) && (data == old(data) || fresh(data))
    {
      hide Encode, EncodeAll, DecodeRune, DecodeAll, Columns;
      InsertAtCursor(Canon(r));
      MoveCursorOneRuneForward();
    }

    /** Lines 136-157. */
    method AdjustVOffset(w: int)
      modifies this`lineVOffset
      ensures lineVOffset == Adjusted(old(lineVOffset), cursorV, w)
    {
      var ht := THRESHOLD;
      var maxHThreshold := TruncDiv(w - 1, 2);
      if ht > maxHThreshold {
        ht := maxHThreshold;
      }
      var threshold := w - 1;
      if lineVOffset != 0 {
        threshold := w - ht;
      }
      if cursorV - lineVOffset >= threshold {
        lineVOffset := cursorV + (ht - w + 1);
      }
      if lineVOffset != 0 && cursorV - lineVOffset < ht {
        lineVOffset := cursorV - ht;
        if lineVOffset < 0 {
          lineVOffset := 0;
        }
      }
    }

    /** One key of the main loop (lines 294-322) and the redraw after it, in a box `w` cells wide. */
    method HandleKey(k: Key, w: int)
      requires Valid() && lineVOffset >= 0
      modifies this, data
      ensures Valid() && Value() == Press(old(Value()), k)
      ensures lineVOffset == Adjusted(old(lineVOffset), cursorV, w)
      ensures data == old(data) || fresh(data)
    {
      hide Encode, EncodeAll, Columns, Press, Adjusted;
      match k {
        case Left => MoveCursorOneRuneBackward();
        case Right => MoveCursorOneRuneForward();
        case Backspace => DeleteRuneBackward();
        case DeleteKey => DeleteRuneForward();
        case KillLine => DeleteTheRestOfTheLine();
        case Home => MoveCursorToBeginningOfTheLine();
        case EndKey => MoveCursorToEndOfTheLine();
        case Insert(r) => InsertRune(r);
      }
      AdjustVOffset(w);
    }

    /** The main loop over any sequence of keys: text and cursor stay in step and the cursor stays visible. */
    method EditLine(ks: seq<Key>, w: int)
      requires Valid() && lineVOffset >= 0 && w >= 1
      modifies this, data
      ensures Valid() && Value() == PressAll(old(Value()), ks)
      ensures data[..len] == EncodeAll(PressAll(old(Value()), ks).runes)
      ensures ks != [] ==> 0 <= cursorV - lineVOffset < w
    {
      for i := 0 to |ks|
        invariant Valid() && lineVOffset >= 0 && (data == old(data) || fresh(data))
        invariant Value() == PressAll(old(Value()), ks[..i])
        invariant i > 0 ==> 0 <= cursorV - lineVOffset < w
      {
        assert ks[..i + 1][..i] == ks[..i];
        ghost var v0 := lineVOffset;
        HandleKey(ks[i], w);
        CursorVisible(v0, cursorV, w);
      }
      assert ks[..|ks|] == ks;
    }
  }

  // ------------------------------------------------------------ scrolling

  function Threshold(w: int): int {
    if THRESHOLD > TruncDiv(w - 1, 2) then TruncDiv(w - 1, 2) else THRESHOLD
  }

  /** The line offset after AdjustVOffset: scroll right when the cursor is too far right, left when too far left. */
  function Adjusted(line: int, cursor: int, w: int): int {
    var ht := Threshold(w);
    var right := if cursor - line >= (if line != 0 then w - ht else w - 1) then cursor + (ht - w + 1) else line;
    if right != 0 && cursor - right < ht then (if cursor - ht < 0 then 0 else cursor - ht) else right
  }

  /** In every box at least one cell wide the cursor is inside the box after an adjustment, which is then stable. */
  lemma CursorVisible(line: int, cursor: int, w: int)
    requires line >= 0 && cursor >= 0 && w >= 1
    ensures var l := Adjusted(line, cursor, w);
      l >= 0 && 0 <= cursor - l < w && Adjusted(l, cursor, w) == l
  {
  }

  /** The margin wanted on each side of the cursor: five cells, or as many as fit twice beside it. */
  function Margin(w: int): nat
    requires w >= 1
  {
    if w >= 11 then 5 else (w - 1) / 2
  }

  /** Scrolled to `l`, the box shows at least the wanted margin on both sides of the cursor. */
  predicate KeepsMargins(l: int, cursor: int, w: int)
    requires w >= 1
  {
    Margin(w) <= cursor - l < w - Margin(w)
  }

  function Distance(a: int, b: int): int { if a <= b then b - a else a - b }

  /** An adjustment scrolls as little as the margins allow, except that a line that is not scrolled
      stays so while the cursor is short of the last cell, and that nothing scrolls left of its start. */
  lemma ScrollsLeast(line: int, cursor: int, w: int)
    requires line >= 0 && cursor >= 0 && w >= 1
    ensures var l := Adjusted(line, cursor, w);
      if (line == 0 && cursor < w - 1) || cursor < Margin(w) then l == 0
      else
        && l >= 0 && KeepsMargins(l, cursor, w)
        && forall k | k >= 0 && KeepsMargins(k, cursor, w) :: Distance(line, l) <= Distance(line, k)
  {
    assert Threshold(w) == Margin(w) && 2 * Margin(w) <= w - 1;
  }

  // ------------------------------------------------------------ what the keys do around the cursor

  /** A line with the cursor between two texts. */
  function Between(before: seq<Scalar>, after: seq<Scalar>): (l: Line)
    ensures l.Valid()
  {
    Line(before + after, |before|)
  }

  /** Keys that look at both sides of the cursor. */
  lemma KeysAtCursor(before: seq<Scalar>, after: seq<Scalar>, r: Scalar)
    ensures Press(Between(before, after), Home) == Between([], before + after)
    ensures Press(Between(before, after), EndKey) == Between(before + after, [])
    ensures Press(Between(before, after), KillLine) == Between(before, [])
    ensures Press(Between(before, after), Insert(r)) == Between(before + [r], after)
    ensures Press(Between([], after), Left) == Press(Between([], after), Backspace) == Between([], after)
    ensures Press(Between(before, []), Right) == Press(Between(before, []), DeleteKey) == Between(before, [])
  {
    assert (before + after)[..|before|] == before && (before + after)[|before|..] == after;
    assert [] + (before + after) == before + after && (before + after) + [] == before + after && before + [] == before;
  }

  /** Keys that act on the rune before or after the cursor. */
  lemma KeysOnRune(before: seq<Scalar>, x: Scalar, after: seq<Scalar>)
    ensures Press(Between(before + [x], after), Left) == Between(before, [x] + after)
    ensures Press(Between(before, [x] + after), Right) == Between(before + [x], after)
    ensures Press(Between(before + [x], after), Backspace) == Between(before, after)
    ensures Press(Between(before, [x] + after), DeleteKey) == Between(before, after)
  {
    var l := (before + [x]) + after;
    assert l == before + ([x] + after);
    assert l[..|before|] == before && l[|before| + 1..] == after;
  }

  /** A value that is no scalar is typed as U+FFFD. */
  lemma InvalidTyped(l: Line, r: int)
    requires l.Valid() && !(0 <= r < 0xD800 || 0xDFFF < r <= 0x10FFFF)
    ensures Press(l, Insert(r)) == Press(l, Insert(0xFFFD))
  {
  }

  /** Keys act one after the other. */
  lemma {:induction false} KeysInTurn(l: Line, ks: seq<Key>, more: seq<Key>, k: Key)
    requires l.Valid()
    ensures PressAll(l, [k]) == Press(l, k)
    ensures PressAll(l, ks + more) == PressAll(PressAll(l, ks), more)
    decreases |more|
  {
    hide Press;
    assert [k][..0] == [];
    if more == [] {
      assert ks + more == ks;
    } else {
      var n := |more| - 1;
      assert (ks + more)[..|ks + more| - 1] == ks + more[..n];
      KeysInTurn(l, ks, more[..n], k);
    }
  }

  /** A tab ends at the next multiple of eight cells, every other rune is as wide as the terminal says. */
  lemma TabStops(width: int -> nat, r: int, pos: nat)
    ensures var a := Advance(width, r, pos); if r == 9 then 1 <= a <= 8 && (pos + a) % 8 == 0 else a == width(r)
  {
  }

  // ------------------------------------------------------------ edits that undo each other

  /** Inserting a rune and deleting backwards restores text and cursor; so does moving right and left. */
  lemma InsertThenBackspace(l: Line, r: int)
    requires l.Valid()
    ensures Press(Press(l, Insert(r)), Backspace) == l
    ensures Press(Press(Press(l, Insert(r)), Left), DeleteKey) == l
    ensures l.cursor < |l.runes| ==> Press(Press(l, Right), Left) == l
  {
    var c := Canon(r);
    var ins := Press(l, Insert(r));
    var back := Press(ins, Backspace);
    assert ins.runes[..l.cursor] == l.runes[..l.cursor];
    assert ins.runes[l.cursor + 1..] == l.runes[l.cursor..];
    assert back.runes == l.runes[..l.cursor] + l.runes[l.cursor..] == l.runes;
  }

  /** Deleting a rune and typing it again restores the line. */
  lemma DeleteThenInsert(l: Line)
    requires l.Valid() && l.cursor < |l.runes|
    ensures Press(Press(Press(l, DeleteKey), Insert(l.runes[l.cursor])), Left) == l
  {
    var d := Press(l, DeleteKey);
    assert d.runes[..l.cursor] == l.runes[..l.cursor] && d.runes[l.cursor..] == l.runes[l.cursor + 1..];
    assert l.runes == l.runes[..l.cursor] + [l.runes[l.cursor]] + l.runes[l.cursor + 1..];
  }
}
