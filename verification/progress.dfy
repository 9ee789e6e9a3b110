/** The two text helpers the brightness and volume scripts use to show a
    level: a bracketed bar of `+` characters and a percentage label padded to
    a fixed width. Arithmetic is on `u32`, where an overflow or underflow
    panics, as in a debug build. */
module Progress {
  import opened Rust
  import opened Strings
  import opened Numerals

  /** Number of `+` characters in `s`. */
  function Filled(s: string): nat
  {
    Count(s, '+')
  }

  /** `get_progress_bar`: `[`, then `progress * barLength / 100` plus signs,
      then spaces up to `barLength`, then `]`. The product is a `u32`, and so
      is the number of spaces. */
  function GetProgressBar(progress: u32, barLength: u32): (r: Outcome<string>)
    ensures r.Ok? ==> |r.value| == barLength + 2
  {
    var product := progress * barLength;
    if product >= U32_LIMIT then Panicked(ArithmeticOverflow)
    else
      var dots := product / 100;
      if barLength < dots then Panicked(ArithmeticOverflow)
      else Ok(Bar(dots, barLength - dots))
  }

  /** The bar shows `progress` percent of `barLength` cells, rounded down:
      it is bracketed, its filled cells come first, and their number is the
      whole part of `progress * barLength / 100`. */
  lemma ProgressBarShape(progress: u32, barLength: u32)
    requires GetProgressBar(progress, barLength).Ok?
    ensures var bar := GetProgressBar(progress, barLength).value;
      bar[0] == '[' && bar[barLength + 1] == ']' &&
      100 * Filled(bar) <= progress * barLength < 100 * (Filled(bar) + 1) &&
      forall i :: 1 <= i <= barLength ==>
        (bar[i] == '+' <==> i <= Filled(bar)) && (bar[i] == ' ' <==> i > Filled(bar))
  {
    var product := progress * barLength;
    var dots := product / 100;
    assert GetProgressBar(progress, barLength).value == Bar(dots, barLength - dots);
  }

  /** The bar panics exactly when the product overflows `u32` or would fill
      more cells than the bar has. */
  lemma ProgressBarPanics(progress: u32, barLength: u32)
    ensures GetProgressBar(progress, barLength).Panicked? <==>
      progress * barLength >= U32_LIMIT || progress * barLength >= 100 * (barLength + 1)
  {
    var product := progress * barLength;
    if product < U32_LIMIT {
      var dots := product / 100;
      assert barLength < dots <==> product >= 100 * (barLength + 1);
    }
  }

  /** `[`, `dots` plus signs, `spaces` spaces, `]`. */
  function Bar(dots: nat, spaces: nat): (bar: string)
    ensures |bar| == dots + spaces + 2
    ensures bar[0] == '[' && bar[dots + spaces + 1] == ']'
    ensures Filled(bar) == dots
    ensures forall i :: 1 <= i <= dots ==> bar[i] == '+'
    ensures forall i :: dots < i <= dots + spaces ==> bar[i] == ' '
  {
    var plus, blank := Repeat('+', dots), Repeat(' ', spaces);
    CountAppend("[" + plus, blank, '+');
    CountAppend("[" + plus + blank, "]", '+');
    CountAppend("[", plus, '+');
    CountRepeat('+', '+', dots);
    CountRepeat(' ', '+', spaces);
    "[" + plus + blank + "]"
  }

  /** A percentage of at most 100 never panics, whatever the bar length that
      keeps the product within `u32`. */
  lemma PercentFits(progress: u32, barLength: u32)
    requires progress <= 100
    requires progress * barLength < U32_LIMIT
    ensures GetProgressBar(progress, barLength).Ok?
  {
    MultiplyMonotone(progress, 100, barLength);
    ProgressBarPanics(progress, barLength);
  }

  /** Less progress on a bar that fits never panics either, and more
      progress never fills fewer cells of the same bar. */
  lemma FilledMonotone(p: u32, q: u32, barLength: u32)
    requires p <= q
    requires GetProgressBar(q, barLength).Ok?
    ensures GetProgressBar(p, barLength).Ok?
    ensures Filled(GetProgressBar(p, barLength).value) <= Filled(GetProgressBar(q, barLength).value)
  {
    MultiplyMonotone(p, q, barLength);
    ProgressBarPanics(p, barLength);
    ProgressBarPanics(q, barLength);
    ProgressBarShape(p, barLength);
    ProgressBarShape(q, barLength);
  }

  lemma MultiplyMonotone(a: nat, b: nat, c: nat)
    requires a <= b
    ensures a * c <= b * c
  {
  }

  /** At 100 percent every cell of the bar is filled. */
  lemma FullBar(barLength: u32)
    requires 100 * barLength < U32_LIMIT
    ensures GetProgressBar(100, barLength) == Ok("[" + Repeat('+', barLength) + "]")
  {
    assert (100 * barLength) / 100 == barLength;
    assert GetProgressBar(100, barLength) == Ok(Bar(barLength, 0));
    assert Repeat(' ', 0) == [];
    assert "[" + Repeat('+', barLength) + [] == "[" + Repeat('+', barLength);
  }

  /** At 0 percent no cell of the bar is filled. */
  lemma EmptyBar(barLength: u32)
    ensures GetProgressBar(0, barLength) == Ok("[" + Repeat(' ', barLength) + "]")
  {
    assert 0 * barLength == 0;
    assert GetProgressBar(0, barLength) == Ok(Bar(0, barLength));
    assert Repeat('+', 0) == [];
    assert "[" + [] == "[";
  }

  lemma ProgressBarExample()
    ensures GetProgressBar(75, 10) == Ok("[+++++++   ]")
  {
    assert 75 * 10 / 100 == 7;
    assert GetProgressBar(75, 10) == Ok(Bar(7, 3));
    assert Repeat('+', 7) == "+++++++";
    assert Repeat(' ', 3) == "   ";
    assert "[" + "+++++++" + "   " + "]" == "[+++++++   ]";
  }

  /** `pad_progress`: the decimal numeral of `progress`, a `%` sign, and
      spaces up to `maxLength` characters. The padding length is a `u32`
      computed by two subtractions, so a width below the numeral's length
      plus one panics. */
  function PadProgress(progress: u32, maxLength: u32): (r: Outcome<string>)
    ensures r.Ok? <==> maxLength >= |Decimal(progress)| + 1
    ensures r.Ok? ==> |r.value| == maxLength
    ensures r.Ok? ==> r.value[..|Decimal(progress)|] == Decimal(progress)
    ensures r.Ok? ==> r.value[|Decimal(progress)|] == '%'
    ensures r.Ok? ==> forall i :: |Decimal(progress)| < i < maxLength ==> r.value[i] == ' '
  {
    var digits := Decimal(progress);
    if maxLength < |digits| then Panicked(ArithmeticOverflow)
    else if maxLength - |digits| < 1 then Panicked(ArithmeticOverflow)
    else
      var padding := maxLength - |digits| - 1;
      if padding > 0 then Ok(digits + "%" + Repeat(' ', padding))
      else Ok(digits + "%")
  }

  /** The label never truncates the number: reading the digits before the
      `%` sign gives `progress` back. */
  lemma PadProgressReadsBack(progress: u32, maxLength: u32)
    requires PadProgress(progress, maxLength).Ok?
    ensures var text := PadProgress(progress, maxLength).value;
      exists k :: 0 < k < |text| && text[k] == '%' && AllDigits(text[..k]) && ValueOf(text[..k]) == progress
  {
    var text := PadProgress(progress, maxLength).value;
    var k := |Decimal(progress)|;
    DecimalRoundTrip(progress);
    assert text[..k] == Decimal(progress);
  }

  /** The label `pad_progress` is evidently meant to produce: the digits, a
      `%` sign, and spaces up to `maxLength` when there is room for them. A
      width too small for the number leaves the label unpadded instead of
      underflowing, so every level has a label. */
  function PadLabel(progress: u32, maxLength: u32): (r: string)
    ensures |r| == if maxLength > |Decimal(progress)| then maxLength as int else |Decimal(progress)| + 1
    ensures r[..|Decimal(progress)|] == Decimal(progress)
    ensures r[|Decimal(progress)|] == '%'
    ensures forall i :: |Decimal(progress)| < i < |r| ==> r[i] == ' '
  {
    var digits := Decimal(progress);
    var padding := if maxLength > |digits| then maxLength - |digits| - 1 else 0;
    digits + "%" + Repeat(' ', padding)
  }

  /** Where `pad_progress` returns at all, it returns the corrected label. */
  lemma PadLabelAgrees(progress: u32, maxLength: u32)
    requires PadProgress(progress, maxLength).Ok?
    ensures PadProgress(progress, maxLength).value == PadLabel(progress, maxLength)
  {
    var text, want := PadProgress(progress, maxLength).value, PadLabel(progress, maxLength);
    assert |text| == |want|;
    var k := |Decimal(progress)|;
    forall i | 0 <= i < |text|
      ensures text[i] == want[i]
    {
      if i < k {
        assert text[..k][i] == want[..k][i];
      }
    }
  }

  /** The corrected label reads back for every level and width. */
  lemma PadLabelReadsBack(progress: u32, maxLength: u32)
    ensures var text := PadLabel(progress, maxLength);
      exists k :: 0 < k < |text| && text[k] == '%' && AllDigits(text[..k]) && ValueOf(text[..k]) == progress
  {
    var text := PadLabel(progress, maxLength);
    var k := |Decimal(progress)|;
    DecimalRoundTrip(progress);
    assert text[..k] == Decimal(progress);
  }

  lemma PadLabelExamples()
    ensures PadLabel(100, 3) == "100%"
    ensures PadLabel(75, 4) == "75% "
  {
    NumeralExamples();
    assert Repeat(' ', 1) == " ";
    assert "100" + "%" + [] == "100%";
    assert "75" + "%" + " " == "75% ";
  }

  lemma PadProgressExamples()
    ensures PadProgress(75, 4) == Ok("75% ")
    ensures PadProgress(75, 3) == Ok("75%")
    ensures PadProgress(100, 3).Panicked?
  {
    NumeralExamples();
    assert Repeat(' ', 1) == " ";
    assert "75" + "%" + " " == "75% ";
    assert "75" + "%" == "75%";
  }
}
