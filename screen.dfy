/**
 * The OLED log of src/utils.cpp: `screenBuffer`, eight rows of 21 characters, and the `static`
 * row counter of `oled_print`. Each call appends one line of at most 20 characters, scrolling
 * the oldest line off once all eight rows are used, and redraws the rows in use.
 *
 * The panel is modelled by the lines drawn on it, top to bottom; fonts, pixels and the I2C
 * transfer are not part of this model.
 */
module Screen {
  import opened Text

  /** NUM_ROWS: SCREEN_HEIGHT 64 over CHAR_HEIGHT 8. */
  const NUM_ROWS: int := 64 / 8

  /** The size of one row of `screenBuffer`: 20 characters and a terminating NUL. */
  const ROW_SIZE: int := 21

  /** A row as the code keeps it: ROW_SIZE characters with a NUL in the last one. */
  predicate RowOk(row: string)
  {
    |row| == ROW_SIZE && row[ROW_SIZE - 1] == '\0'
  }

  /** `strcpy(dst, src)` into a buffer that can hold `src`: its C string and NUL, the rest of `dst` left alone. */
  function StrCopy(dst: string, src: string): (r: string)
    requires |CStr(src)| < |dst|
    ensures |r| == |dst| && CStr(r) == CStr(src)
    ensures r[|CStr(src)| + 1..] == dst[|CStr(src)| + 1..]
  {
    var c := CStr(src);
    var r := c + "\0" + dst[|c| + 1..];
    assert r == (c + "\0") + dst[|c| + 1..];
    CStrOfPadded(c, 1);
    assert (c + "\0")[|c|] == '\0';
    AppendAfterNul(c + "\0", dst[|c| + 1..]);
    assert c + Nuls(1) == c + "\0";
    r
  }

  /** `strcpy` of one row into another keeps the row's shape and takes the other's C string. */
  function CopyRow(dst: string, src: string): (r: string)
    requires RowOk(dst) && RowOk(src)
    ensures RowOk(r) && CStr(r) == CStr(src)
  {
    var r := StrCopy(dst, src);
    assert |CStr(src)| < ROW_SIZE - 1 ==> r[ROW_SIZE - 1] == r[|CStr(src)| + 1..][ROW_SIZE - 2 - |CStr(src)|];
    r
  }

  /** What follows a NUL does not change the C string. */
  lemma {:induction false} AppendAfterNul(s: string, t: string)
    requires exists i :: 0 <= i < |s| && s[i] == '\0'
    ensures CStr(s + t) == CStr(s)
  {
    if s[0] != '\0' {
      assert (s + t)[1..] == s[1..] + t;
      var i :| 0 <= i < |s| && s[i] == '\0';
      assert s[1..][i - 1] == '\0';
      AppendAfterNul(s[1..], t);
    }
  }

  /**
   * The new row `oled_print` writes: `strncpy` of the whole row, then a NUL forced into its
   * last character. It holds the first 20 characters of the text.
   */
  function NewRow(text: string): (r: string)
    ensures RowOk(r)
    ensures CStr(r) == Prefix(CStr(text), ROW_SIZE - 1)
  {
    NewRowHolds(text);
    StrNCopy(text, ROW_SIZE)[ROW_SIZE - 1 := '\0']
  }

  lemma NewRowHolds(text: string)
    ensures CStr(StrNCopy(text, ROW_SIZE)[ROW_SIZE - 1 := '\0']) == Prefix(CStr(text), ROW_SIZE - 1)
  {
    var full := StrNCopy(text, ROW_SIZE);
    var c := Prefix(CStr(text), ROW_SIZE);
    assert full == c + Nuls(ROW_SIZE - |c|);
    var r := full[ROW_SIZE - 1 := '\0'];
    if |c| < ROW_SIZE {
      assert r == full;
    } else {
      var head := c[..ROW_SIZE - 1];
      assert r == head + Nuls(1);
      CStrOfPadded(head, 1);
    }
  }

  /** The line a call shows for `text`: its C string, cut to 20 characters. */
  function Line(text: string): (r: string)
    ensures |r| <= ROW_SIZE - 1 && |r| <= |CStr(text)| && r == CStr(text)[..|r|]
    ensures |CStr(text)| <= ROW_SIZE - 1 ==> r == CStr(text)
  {
    Prefix(CStr(text), ROW_SIZE - 1)
  }

  /** The lines on screen after one more `oled_print(text)`: the oldest scrolls off when all rows are in use. */
  function Scroll(shown: seq<string>, text: string): (r: seq<string>)
    ensures |shown| < NUM_ROWS ==> r == shown + [Line(text)]
    ensures |shown| <= NUM_ROWS ==>
      |r| == (if |shown| < NUM_ROWS then |shown| + 1 else NUM_ROWS) &&
      r == (shown + [Line(text)])[|shown| + 1 - |r|..]
  {
    var l := Line(text);
    SlideWindow(shown, l, NUM_ROWS);
    (if |shown| >= NUM_ROWS then shown[|shown| - (NUM_ROWS - 1)..] else shown) + [l]
  }

  /** Dropping the oldest element of a full window before appending keeps the newest `k`. */
  lemma SlideWindow<T>(s: seq<T>, x: T, k: nat)
    requires 0 < k
    ensures var w := (if |s| >= k then s[|s| - (k - 1)..] else s) + [x];
      |s| <= k ==> |w| == (if |s| < k then |s| + 1 else k) && w == (s + [x])[|s| + 1 - |w|..]
  {
    if |s| <= k {
      var w := (if |s| >= k then s[|s| - (k - 1)..] else s) + [x];
      assert w == (s + [x])[|s| + 1 - |w|..];
    }
  }

  /** The lines on screen after a series of calls. */
  function {:induction false} ScrollAll(shown: seq<string>, texts: seq<string>): seq<string>
    decreases |texts|
  {
    if texts == [] then shown else ScrollAll(Scroll(shown, texts[0]), texts[1..])
  }

  /** The lines of a series of texts, each cut as `oled_print` cuts it. */
  function {:induction false} Lines(texts: seq<string>): seq<string>
    decreases |texts|
  {
    if texts == [] then [] else [Line(texts[0])] + Lines(texts[1..])
  }

  /** The last `k` elements of a sequence, or all of it when it is shorter. */
  function Last<T>(s: seq<T>, k: nat): (r: seq<T>)
    ensures |r| == if |s| <= k then |s| else k
    ensures r == s[|s| - |r|..]
  {
    if |s| <= k then s else s[|s| - k..]
  }

  /**
   * The screen is a window on the log: whatever was printed, in order, it shows the last eight
   * lines, each the first 20 characters of its text.
   */
  lemma {:induction false} ShowsLastLines(shown: seq<string>, texts: seq<string>)
    requires |shown| <= NUM_ROWS
    ensures ScrollAll(shown, texts) == Last(shown + Lines(texts), NUM_ROWS)
    decreases |texts|
  {
    if texts == [] {
      assert shown + Lines(texts) == shown;
    } else {
      var l := Line(texts[0]);
      var rest := Lines(texts[1..]);
      assert Lines(texts) == [l] + rest;
      ScrollIsLast(shown, texts[0]);
      ShowsLastLines(Scroll(shown, texts[0]), texts[1..]);
      WindowStep(shown, l, rest, NUM_ROWS);
    }
  }

  /** One more element, windowed before or after appending the rest. */
  lemma WindowStep<T>(shown: seq<T>, l: T, rest: seq<T>, k: nat)
    ensures Last(Last(shown + [l], k) + rest, k) == Last(shown + ([l] + rest), k)
  {
    LastOfLast(shown + [l], rest, k);
    assert (shown + [l]) + rest == shown + ([l] + rest);
  }

  /** One call keeps the last eight lines. */
  lemma ScrollIsLast(shown: seq<string>, text: string)
    requires |shown| <= NUM_ROWS
    ensures Scroll(shown, text) == Last(shown + [Line(text)], NUM_ROWS)
  {
  }

  /** Keeping the last `k` before appending more does not change the last `k` of the whole. */
  lemma LastOfLast<T>(a: seq<T>, b: seq<T>, k: nat)
    ensures Last(Last(a, k) + b, k) == Last(a + b, k)
  {
    var x := Last(a, k) + b;
    var y := a + b;
    assert x == y[|a| - |Last(a, k)|..];
  }

  /** The C strings a run of rows holds. */
  function Texts(rows: seq<string>): (r: seq<string>)
    ensures |r| == |rows| && forall i :: 0 <= i < |rows| ==> r[i] == CStr(rows[i])
  {
    seq(|rows|, i requires 0 <= i < |rows| => CStr(rows[i]))
  }

  /** `screenBuffer`, the counter of `oled_print`, and the lines the panel shows. */
  class Display {
    const rows: array<string>                  // screenBuffer
    var readingIndex: int                      // oled_print's static readingIndex
    var drawn: seq<string>                     // the panel, top line first

    ghost predicate Valid()
      reads this, rows
    {
      rows.Length == NUM_ROWS && 0 <= readingIndex <= NUM_ROWS &&
      forall i :: 0 <= i < NUM_ROWS ==> RowOk(rows[i])
    }

    /** The lines held in the rows in use. */
    function Shown(): (r: seq<string>)
      requires Valid()
      reads this, rows
      ensures |r| == readingIndex
    {
      Texts(rows[..readingIndex])
    }

    /** The zero-initialised buffer and counter of a fresh boot; the panel shows "booted". */
    constructor ()
      ensures Valid() && fresh(rows)
      ensures readingIndex == 0 && Shown() == [] && drawn == ["booted"]
    {
      rows := new string[NUM_ROWS](_ => Nuls(ROW_SIZE));
      readingIndex := 0;
      drawn := ["booted"];
    }

    /** `oled_print(const char* text)`. */
    method Print(text: string)
      requires Valid()
      modifies this, rows
      ensures Valid() && 1 <= readingIndex <= NUM_ROWS
      ensures Shown() == Scroll(old(Shown()), text)
      ensures drawn == Shown()
    {
      ghost var before := Shown();
      ghost var kept := if readingIndex >= NUM_ROWS then before[1..] else before;
      assert Scroll(before, text) == kept + [Line(text)];
      if readingIndex >= NUM_ROWS {
        ScrollUp();
      }
      assert Shown() == kept;
      ghost var pre := rows[..];
      var row := NewRow(text);
      rows[readingIndex] := row;
      TextsAppend(pre, rows[..], readingIndex, row);
      assert forall i :: 0 <= i < NUM_ROWS ==> RowOk(rows[i]);
      Redraw();
      readingIndex := readingIndex + 1;
      assert Shown() == kept + [Line(text)] == drawn;
    }

    /** The scroll loop: each row takes the C string of the next one, and the counter drops to the last row. */
    method ScrollUp()
      requires Valid() && readingIndex == NUM_ROWS
      modifies this`readingIndex, rows
      ensures Valid() && readingIndex == NUM_ROWS - 1
      ensures Shown() == old(Shown())[1..]
    {
      ghost var before := rows[..];
      var i := 0;
      while i < NUM_ROWS - 1
        invariant 0 <= i <= NUM_ROWS - 1
        invariant forall j :: 0 <= j < NUM_ROWS ==> RowOk(rows[j])
        invariant forall j :: 0 <= j < i ==> CStr(rows[j]) == CStr(before[j + 1])
        invariant rows[i..] == before[i..]
      {
        rows[i] := CopyRow(rows[i], rows[i + 1]);
        i := i + 1;
      }
      readingIndex := NUM_ROWS - 1;
      assert Texts(rows[..NUM_ROWS - 1]) == Texts(before)[1..];
    }

    /** The redraw loop: rows 0 to `readingIndex`, one line each. */
    method Redraw()
      requires Valid() && readingIndex < NUM_ROWS
      modifies this`drawn
      ensures |drawn| == readingIndex + 1 && forall j :: 0 <= j <= readingIndex ==> drawn[j] == CStr(rows[j])
      ensures drawn == Texts(rows[..readingIndex + 1])
    {
      drawn := [];
      var i := 0;
      while i <= readingIndex
        invariant 0 <= i <= readingIndex + 1
        invariant |drawn| == i && forall j :: 0 <= j < i ==> drawn[j] == CStr(rows[j])
      {
        drawn := drawn + [CStr(rows[i])];
        i := i + 1;
      }
      assert drawn == Texts(rows[..readingIndex + 1]);
    }

    /** `oled_print(uint8_t value)`: the value in decimal, which always fits the eight-character buffer. */
    method PrintByte(value: Byte)
      requires Valid()
      modifies this, rows
      ensures Valid() && 1 <= readingIndex <= NUM_ROWS
      ensures Shown() == Scroll(old(Shown()), Decimal(value))
      ensures Shown()[readingIndex - 1] == Decimal(value) && DigitsValue(Shown()[readingIndex - 1]) == value
      ensures drawn == Shown()
    {
      var buffer := StrNCopy(Decimal(value), 8);
      DecimalWidth(value, 3, 1000);
      NoNul(Decimal(value));
      CStrOfPlain(Decimal(value));
      assert CStr(buffer) == Decimal(value);
      Print(buffer);
      DecimalValue(value);
    }
  }

  /** Writing one row just past the rows in use adds its C string to the lines shown. */
  lemma TextsAppend(before: seq<string>, after: seq<string>, k: nat, row: string)
    requires k < |before| == |after| && after == before[k := row]
    ensures Texts(after[..k + 1]) == Texts(before[..k]) + [CStr(row)]
  {
    assert after[..k + 1] == before[..k] + [row];
  }

  lemma NoNul(d: string)
    requires AllDigits(d)
    ensures forall i :: 0 <= i < |d| ==> d[i] != '\0'
  {
    forall i | 0 <= i < |d| ensures d[i] != '\0' {
      assert IsDigit(d[i]);
    }
  }
}
