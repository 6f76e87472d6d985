/**
 * The height normaliser of nba_wordle_game.py (height_to_inches): a
 * "feet-inches" string such as "6-9" becomes a number of inches, and every
 * failure along the way becomes 0.
 */
module Height {

  import opened Wrappers
  import opened Strings
  import opened Numerals

  /**
   * height_to_inches. The raw value is None where the record's height is not
   * a str at all (its .split raises). Otherwise the string is split on '-',
   * unpacking demands exactly two pieces, and each piece goes through int();
   * any exception on the way is caught and gives 0. Since no piece can hold
   * a '-', neither int() can be negative, so nor can the result.
   */
  function HeightToInches(raw: Option<string>): (inches: int)
    ensures inches >= 0
    ensures raw.None? ==> inches == 0
  {
    match raw
    case None => 0
    case Some(s) =>
      var parts := SplitOn(s, '-');
      SplitOnPieces(s, '-');
      if |parts| == 2 then
        match (ParseInt(parts[0]), ParseInt(parts[1]))
        case (Some(feet), Some(inch)) => feet * 12 + inch
        case _ => 0
      else 0
  }

  /** "F-I" whose two pieces int() accepts is F * 12 + I inches (the inches are not range-checked). */
  lemma HeightOfParts(a: string, b: string, feet: int, inch: int)
    requires '-' !in a && '-' !in b
    requires ParseInt(a) == Some(feet) && ParseInt(b) == Some(inch)
    ensures HeightToInches(Some(a + "-" + b)) == feet * 12 + inch
  {
    SplitJoin([a, b], '-');
    assert Join([a, b], '-') == a + "-" + b;
  }

  /** A single '-' between pieces of which int() rejects one gives 0. */
  lemma HeightOfBadPart(a: string, b: string)
    requires '-' !in a && '-' !in b
    requires ParseInt(a).None? || ParseInt(b).None?
    ensures HeightToInches(Some(a + "-" + b)) == 0
  {
    SplitJoin([a, b], '-');
    assert Join([a, b], '-') == a + "-" + b;
  }

  /** No '-' at all, or more than one, gives 0. */
  lemma HeightOfDashCount(s: string)
    requires multiset(s)['-'] != 1
    ensures HeightToInches(Some(s)) == 0
  {
    SplitOnPieces(s, '-');
  }

  /**
   * The three lemmas above cover every string: one holding exactly one '-'
   * is the two dash-free pieces around it.
   */
  lemma HeightCases(s: string)
    requires multiset(s)['-'] == 1
    ensures var parts := SplitOn(s, '-');
      |parts| == 2 && s == parts[0] + "-" + parts[1] && '-' !in parts[0] && '-' !in parts[1]
  {
    SplitOnOnce(s, '-');
  }

  /** The usual roster form: F and I written in decimal around a '-' give F * 12 + I. */
  lemma HeightOfFeetInches(feet: nat, inch: nat)
    ensures HeightToInches(Some(ShowNat(feet) + "-" + ShowNat(inch))) == feet * 12 + inch
  {
    NoDashInDigits(ShowNat(feet));
    NoDashInDigits(ShowNat(inch));
    ParseShown(feet);
    ParseShown(inch);
    HeightOfParts(ShowNat(feet), ShowNat(inch), feet, inch);
  }

  lemma NoDashInBlank(p: string)
    requires IntBlank(p)
    ensures '-' !in p
  {
  }

  lemma NoDashInDigits(d: string)
    requires AllDigits(d)
    ensures '-' !in d
  {
  }

  /**
   * A worked value in the roster's own form. The string is a parameter so
   * that the proof goes through the lemmas above rather than by evaluating
   * the definitions on a literal.
   */
  lemma HeightSixNine(h: string)
    requires h == "6-9"
    ensures HeightToInches(Some(h)) == 81
  {
    HeightOfFeetInches(6, 9);
    assert ShowNat(6) + "-" + ShowNat(9) == h;
  }

  /** Zero inches is written as such: "7-0" is seven feet. */
  lemma HeightSevenZero(h: string)
    requires h == "7-0"
    ensures HeightToInches(Some(h)) == 84
  {
    HeightOfFeetInches(7, 0);
    assert ShowNat(7) + "-" + ShowNat(0) == h;
  }

  /** int() ignores whitespace around each piece, so spaces around the digits and the '-' do no harm. */
  lemma HeightOfPaddedFeetInches(p: string, q: string, u: string, v: string, feet: nat, inch: nat)
    requires IntBlank(p) && IntBlank(q) && IntBlank(u) && IntBlank(v)
    ensures HeightToInches(Some((p + ShowNat(feet) + q) + "-" + (u + ShowNat(inch) + v))) == feet * 12 + inch
  {
    var a, b := p + ShowNat(feet) + q, u + ShowNat(inch) + v;
    NoDashInDigits(ShowNat(feet));
    NoDashInDigits(ShowNat(inch));
    ParseIntDigits(p, ShowNat(feet), q);
    ParseIntDigits(u, ShowNat(inch), v);
    ValueOfShown(feet);
    ValueOfShown(inch);
    NoDashInBlank(p);
    NoDashInBlank(q);
    NoDashInBlank(u);
    NoDashInBlank(v);
    HeightOfParts(a, b, feet, inch);
  }

  /** A feet piece led by an ASCII separator such as U+001C is rejected by int(), so the height is 0. */
  lemma HeightOfSeparatorPadding(c: char, h: string)
    requires 28 <= c as int <= 31
    requires h == [c] + "6-9"
    ensures HeightToInches(Some(h)) == 0
  {
    var a, b := [c] + ShowNat(6), ShowNat(9);
    ParseIntRejectsSeparator(c, ShowNat(6));
    NoDashInDigits(ShowNat(6));
    NoDashInDigits(ShowNat(9));
    assert '-' !in a;
    HeightOfBadPart(a, b);
    assert a + "-" + b == h;
  }

  /** Worked malformed values: a foot mark, a second '-', a missing piece, nothing at all. */
  lemma HeightMalformedExamples(mark: string, twice: string, half: string, empty: string)
    requires mark == "6'9" && twice == "6-9-1" && half == "6-" && empty == ""
    ensures HeightToInches(Some(mark)) == 0
    ensures HeightToInches(Some(twice)) == 0
    ensures HeightToInches(Some(half)) == 0
    ensures HeightToInches(Some(empty)) == 0
  {
    assert multiset(mark)['-'] == 0;
    HeightOfDashCount(mark);
    assert multiset(twice)['-'] == 2;
    HeightOfDashCount(twice);
    HeightOfBadPart("6", "");
    assert "6" + "-" + "" == half;
    HeightOfDashCount(empty);
  }
}
