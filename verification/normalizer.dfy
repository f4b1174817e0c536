/** The amount normaliser shared by the float-amount field and every row's
    amount field: Persian digits become Western digits, every other non-digit
    is dropped, the digits are read as a decimal number (nothing left reads
    as 0), and the result is capped at 999 999 999. */
module Normalizer {

  /** The largest amount any amount field holds. */
  const Cap: nat := 999999999

  predicate IsWestern(c: char) { '0' <= c <= '9' }

  /** Extended Arabic-Indic ("Persian") digits U+06F0 to U+06F9. */
  predicate IsPersian(c: char) { '\U{06F0}' <= c <= '\U{06F9}' }

  /** A character the normaliser keeps as a digit. */
  predicate IsDigitGlyph(c: char) { IsWestern(c) || IsPersian(c) }

  predicate AllWestern(s: string) { forall i :: 0 <= i < |s| ==> IsWestern(s[i]) }

  /** The numeric value of a digit glyph of either script. */
  function GlyphValue(c: char): (d: nat)
    requires IsDigitGlyph(c)
    ensures d < 10
  {
    if IsWestern(c) then c as int - '0' as int else c as int - 0x06F0
  }

  /** One entry of the Persian-to-Western replacement table. */
  function ToWestern(c: char): (w: char)
    ensures IsDigitGlyph(c) <==> IsWestern(w)
    ensures IsDigitGlyph(c) ==> GlyphValue(w) == GlyphValue(c)
    ensures !IsPersian(c) ==> w == c
  {
    if IsPersian(c) then (c as int - 0x06F0 + '0' as int) as char else c
  }

  /** Step 1: replace every Persian digit by its Western twin, position by position. */
  function Transliterate(s: string): (t: string)
    ensures |t| == |s|
    ensures forall i :: 0 <= i < |s| ==> t[i] == ToWestern(s[i])
  {
    if s == [] then [] else Transliterate(s[..|s| - 1]) + [ToWestern(s[|s| - 1])]
  }

  /** Step 2: drop everything that is not a Western digit, keeping order. */
  function StripNonDigits(s: string): (d: string)
    ensures AllWestern(d)
    ensures |d| <= |s|
    ensures forall i :: 0 <= i < |d| ==> d[i] in s
    ensures forall i :: 0 <= i < |s| && IsWestern(s[i]) ==> s[i] in d
  {
    if s == [] then []
    else StripNonDigits(s[..|s| - 1]) + (if IsWestern(s[|s| - 1]) then [s[|s| - 1]] else [])
  }

  /** Stripping distributes over concatenation, so the kept digits stay in
      their input order. */
  lemma {:induction false} StripConcat(a: string, b: string)
    ensures StripNonDigits(a + b) == StripNonDigits(a) + StripNonDigits(b)
    decreases |b|
  {
    if b == [] {
      assert a + b == a;
    } else {
      var b' := b[..|b| - 1];
      assert (a + b)[..|a + b| - 1] == a + b';
      StripConcat(a, b');
    }
  }

  /** Step 3: `Number(digits) || 0` on a string of Western digits; the empty
      string reads as 0. */
  function ParseDecimal(d: string): (n: nat)
    requires AllWestern(d)
  {
    if d == [] then 0 else ParseDecimal(d[..|d| - 1]) * 10 + GlyphValue(d[|d| - 1])
  }

  /** Step 4: the cap. */
  function Clamp(v: nat): (r: nat)
    ensures r <= Cap
    ensures v <= Cap ==> r == v
    ensures v > Cap ==> r == Cap
  {
    if v > Cap then Cap else v
  }

  /** The normaliser as the handlers run it. */
  function Normalize(s: string): (r: nat)
    ensures r <= Cap
  {
    Clamp(ParseDecimal(StripNonDigits(Transliterate(s))))
  }

  // ---------------------------------------------------------------------
  // Reference reading: the number spelled by the digit glyphs, capped.

  /** The values of the digit glyphs of `s`, in order, ignoring everything else. */
  function DigitValues(s: string): (ds: seq<nat>)
    ensures forall i :: 0 <= i < |ds| ==> ds[i] < 10
  {
    if s == [] then []
    else DigitValues(s[..|s| - 1]) + (if IsDigitGlyph(s[|s| - 1]) then [GlyphValue(s[|s| - 1])] else [])
  }

  /** The number a most-significant-first digit sequence denotes. */
  function ValueOf(ds: seq<nat>): nat
  {
    if ds == [] then 0 else ValueOf(ds[..|ds| - 1]) * 10 + ds[|ds| - 1]
  }

  lemma {:induction false} ParsedDigitsAreDigitValues(s: string)
    ensures ParseDecimal(StripNonDigits(Transliterate(s))) == ValueOf(DigitValues(s))
  {
    if s != [] {
      var p, c := s[..|s| - 1], s[|s| - 1];
      var t := Transliterate(p);
      var w := ToWestern(c);
      assert Transliterate(s) == t + [w];
      assert (t + [w])[..|t|] == t;
      ParsedDigitsAreDigitValues(p);
      var d := StripNonDigits(t);
      if IsWestern(w) {
        assert StripNonDigits(t + [w]) == d + [w];
        assert (d + [w])[..|d|] == d;
        assert DigitValues(s) == DigitValues(p) + [GlyphValue(c)];
        assert (DigitValues(p) + [GlyphValue(c)])[..|DigitValues(p)|] == DigitValues(p);
      } else {
        assert StripNonDigits(t + [w]) == d;
        assert DigitValues(s) == DigitValues(p);
      }
    }
  }

  /** The normaliser returns the number spelled by the Western and Persian
      digits of its input, read in order, capped at 999 999 999. */
  lemma NormalizeMeaning(s: string)
    ensures Normalize(s) == if ValueOf(DigitValues(s)) > Cap then Cap else ValueOf(DigitValues(s))
  {
    ParsedDigitsAreDigitValues(s);
  }

  /** Text without a single Western or Persian digit (Arabic-Indic digits
      U+0660 to U+0669 included, since the table does not map them) normalises to 0. */
  lemma {:induction false} NoDigitsIsZero(s: string)
    requires forall i :: 0 <= i < |s| ==> !IsDigitGlyph(s[i])
    ensures Normalize(s) == 0
  {
    NoDigitValues(s);
    NormalizeMeaning(s);
  }

  lemma {:induction false} NoDigitValues(s: string)
    requires forall i :: 0 <= i < |s| ==> !IsDigitGlyph(s[i])
    ensures DigitValues(s) == []
  {
    if s != [] {
      NoDigitValues(s[..|s| - 1]);
    }
  }

  /** Arabic-Indic digits are not in the replacement table and are dropped. */
  lemma ArabicIndicDigitsAreDropped()
    ensures Normalize("\U{0661}\U{0662}\U{0663}") == 0
  {
    NoDigitsIsZero("\U{0661}\U{0662}\U{0663}");
  }

  /** Whatever else the input holds, once its digits spell more than the cap
      the result is exactly the cap. */
  lemma OverCapClamps(s: string)
    requires ValueOf(DigitValues(s)) > Cap
    ensures Normalize(s) == Cap
  {
    NormalizeMeaning(s);
  }

  // ---------------------------------------------------------------------
  // Round trip with the displayed value.

  /** The glyph of digit `d` in the chosen script. */
  function Glyph(d: nat, persian: bool): (c: char)
    requires d < 10
    ensures IsDigitGlyph(c) && GlyphValue(c) == d
    ensures persian <==> IsPersian(c)
  {
    if persian then (0x06F0 + d) as char else ('0' as int + d) as char
  }

  /** The decimal digits of `n`, most significant first, without leading zeros. */
  function DecimalDigits(n: nat): (ds: seq<nat>)
    ensures 1 <= |ds|
    ensures forall i :: 0 <= i < |ds| ==> ds[i] < 10
    ensures n > 0 ==> ds[0] > 0
  {
    if n < 10 then [n] else DecimalDigits(n / 10) + [n % 10]
  }

  predicate AllDigits(ds: seq<nat>) { forall i :: 0 <= i < |ds| ==> ds[i] < 10 }

  function Glyphs(ds: seq<nat>, persian: bool): (s: string)
    requires AllDigits(ds)
  {
    if ds == [] then [] else Glyphs(ds[..|ds| - 1], persian) + [Glyph(ds[|ds| - 1], persian)]
  }

  /** Digits grouped in threes from the right with a separator between groups,
      the shape `toLocaleString` gives a number. */
  function Grouped(ds: seq<nat>, persian: bool, sep: char): string
    requires AllDigits(ds)
  {
    if |ds| <= 3 then Glyphs(ds, persian)
    else Grouped(ds[..|ds| - 3], persian, sep) + [sep] + Glyphs(ds[|ds| - 3..], persian)
  }

  /** What an amount field shows for `n`: nothing for 0, otherwise the grouped
      digits. The locale's exact glyphs and separator are parameters. */
  function Displayed(n: nat, persian: bool, sep: char): string
  {
    if n == 0 then "" else Grouped(DecimalDigits(n), persian, sep)
  }

  lemma {:induction false} DigitValuesConcat(a: string, b: string)
    ensures DigitValues(a + b) == DigitValues(a) + DigitValues(b)
  {
    if b != [] {
      var b' := b[..|b| - 1];
      assert (a + b)[..|a + b| - 1] == a + b';
      DigitValuesConcat(a, b');
    } else {
      assert a + b == a;
    }
  }

  lemma {:induction false} GlyphsSpellDigits(ds: seq<nat>, persian: bool)
    requires AllDigits(ds)
    ensures DigitValues(Glyphs(ds, persian)) == ds
  {
    if ds != [] {
      var p, d := ds[..|ds| - 1], ds[|ds| - 1];
      var g := Glyphs(p, persian);
      GlyphsSpellDigits(p, persian);
      assert Glyphs(ds, persian) == g + [Glyph(d, persian)];
      assert (g + [Glyph(d, persian)])[..|g|] == g;
      assert p + [d] == ds;
    }
  }

  lemma {:induction false} GroupedSpellsDigits(ds: seq<nat>, persian: bool, sep: char)
    requires AllDigits(ds)
    requires !IsDigitGlyph(sep)
    ensures DigitValues(Grouped(ds, persian, sep)) == ds
  {
    if |ds| <= 3 {
      GlyphsSpellDigits(ds, persian);
    } else {
      var hi, lo := ds[..|ds| - 3], ds[|ds| - 3..];
      var g := Grouped(hi, persian, sep);
      GroupedSpellsDigits(hi, persian, sep);
      GlyphsSpellDigits(lo, persian);
      DigitValuesConcat(g, [sep]);
      DigitValuesConcat(g + [sep], Glyphs(lo, persian));
      assert DigitValues([sep]) == [] by {
        assert [sep][..0] == [];
      }
      assert hi + lo == ds;
    }
  }

  lemma {:induction false} DecimalDigitsValue(n: nat)
    ensures ValueOf(DecimalDigits(n)) == n
  {
    if n >= 10 {
      DecimalDigitsValue(n / 10);
      var ds := DecimalDigits(n / 10);
      assert (ds + [n % 10])[..|ds|] == ds;
    }
  }

  /** Whatever a field displays for an amount in range, in Western or Persian
      digits with any non-digit group separator, reads back as that amount. */
  lemma DisplayRoundTrip(n: nat, persian: bool, sep: char)
    requires n <= Cap
    requires !IsDigitGlyph(sep)
    ensures Normalize(Displayed(n, persian, sep)) == n
  {
    NormalizeMeaning(Displayed(n, persian, sep));
    if n > 0 {
      GroupedSpellsDigits(DecimalDigits(n), persian, sep);
      DecimalDigitsValue(n);
    }
  }

  // ---------------------------------------------------------------------
  // Worked examples.

  /** One more character appends at most one digit value. */
  lemma DigitValuesSnoc(s: string, c: char)
    ensures DigitValues(s + [c]) == DigitValues(s) + (if IsDigitGlyph(c) then [GlyphValue(c)] else [])
  {
    assert (s + [c])[..|s|] == s;
  }

  lemma ValueOfSnoc(ds: seq<nat>, d: nat)
    ensures ValueOf(ds + [d]) == ValueOf(ds) * 10 + d
  {
    assert (ds + [d])[..|ds|] == ds;
  }

  lemma PersianDigitsExample()
    ensures DigitValues("\U{06F1}\U{06F2},\U{06F3}\U{06F4}\U{06F5}") == [1, 2, 3, 4, 5]
  {
    var s: string := "\U{06F1}";
    DigitValuesSnoc([], '\U{06F1}');
    assert DigitValues(s) == [1];
    DigitValuesSnoc(s, '\U{06F2}'); s := s + ['\U{06F2}'];
    DigitValuesSnoc(s, ','); s := s + [','];
    DigitValuesSnoc(s, '\U{06F3}'); s := s + ['\U{06F3}'];
    DigitValuesSnoc(s, '\U{06F4}'); s := s + ['\U{06F4}'];
    DigitValuesSnoc(s, '\U{06F5}'); s := s + ['\U{06F5}'];
    assert s == "\U{06F1}\U{06F2},\U{06F3}\U{06F4}\U{06F5}";
  }

  lemma ValueExample()
    ensures ValueOf([1, 2, 3, 4, 5]) == 12345
  {
    var ds: seq<nat> := [];
    ValueOfSnoc(ds, 1); ds := ds + [1];
    ValueOfSnoc(ds, 2); ds := ds + [2];
    ValueOfSnoc(ds, 3); ds := ds + [3];
    ValueOfSnoc(ds, 4); ds := ds + [4];
    ValueOfSnoc(ds, 5); ds := ds + [5];
    assert ds == [1, 2, 3, 4, 5];
  }

  /** Persian digits with a comma and a trailing currency word. The text is a
      parameter fixed by the precondition, rather than a literal in the
      postcondition, so that the verifier does not unfold the literal through
      every recursive definition at once, which exhausts its resource limit. */
  lemma PersianWithNoise(s: string)
    requires s == "\U{06F1}\U{06F2},\U{06F3}\U{06F4}\U{06F5} \U{0631}\U{06CC}\U{0627}\U{0644}"
    ensures Normalize(s) == 12345
  {
    NoisyDigitValues(s);
    ValueExample();
    NormalizeMeaning(s);
  }

  /** The digit values of the noisy text are those of its digit part. */
  lemma NoisyDigitValues(s: string)
    requires s == "\U{06F1}\U{06F2},\U{06F3}\U{06F4}\U{06F5} \U{0631}\U{06CC}\U{0627}\U{0644}"
    ensures DigitValues(s) == [1, 2, 3, 4, 5]
  {
    var digits := "\U{06F1}\U{06F2},\U{06F3}\U{06F4}\U{06F5}";
    var word := " \U{0631}\U{06CC}\U{0627}\U{0644}";
    PersianDigitsExample();
    NoDigitValues(word);
    DigitValuesConcat(digits, word);
    assert s == digits + word;
  }

  lemma EmptyIsZero()
    ensures Normalize("") == 0
  {
  }

  /** The decimal string of nines of length `k`, and its value 10^k - 1. */
  function Nines(k: nat): (s: string)
    ensures |s| == k
  {
    if k == 0 then "" else Nines(k - 1) + "9"
  }

  lemma {:induction false} NinesValue(k: nat)
    ensures DigitValues(Nines(k)) == seq(k, _ => 9)
  {
    if k > 0 {
      NinesValue(k - 1);
      DigitValuesSnoc(Nines(k - 1), '9');
      assert seq(k - 1, _ => 9) + [9] == seq(k, _ => 9);
    }
  }

  /** Ten nines exceed the cap, so they read as exactly the cap. */
  lemma TenNinesClamp()
    ensures Normalize("9999999999") == Cap
  {
    NinesValue(10);
    assert Nines(10) == "9999999999";
    var ds: seq<nat> := [];
    ValueOfSnoc(ds, 9); ds := ds + [9];
    ValueOfSnoc(ds, 9); ds := ds + [9];
    ValueOfSnoc(ds, 9); ds := ds + [9];
    ValueOfSnoc(ds, 9); ds := ds + [9];
    ValueOfSnoc(ds, 9); ds := ds + [9];
    ValueOfSnoc(ds, 9); ds := ds + [9];
    ValueOfSnoc(ds, 9); ds := ds + [9];
    ValueOfSnoc(ds, 9); ds := ds + [9];
    ValueOfSnoc(ds, 9); ds := ds + [9];
    ValueOfSnoc(ds, 9); ds := ds + [9];
    assert ds == seq(10, _ => 9);
    OverCapClamps("9999999999");
  }
}
