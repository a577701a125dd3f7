/** The band-ID format of `BirdCRUD.create_bird` (`app/crud/bird_crud.py`):
    `<breeder code>-<year, 4 digits>-<number, 2 digits>`, and its reading
    back by splitting on `-` from the right, so that breeder codes may
    themselves contain dashes. */
module BandId {
  import opened Wrappers
  import opened Text

  const Dash: char := '-'

  /** f-string `{i:0Wd}`: the sign counts towards the width and the zeros
      go between the sign and the digits. */
  function FormatInt(i: int, width: nat): (s: string)
    ensures i >= 0 ==> AllDigits(s) && |s| >= width && ParseDigits(s) == Some(i)
    ensures i < 0 ==> |s| >= 2 && s[0] == Dash
  {
    if i >= 0 then
      ParseZeroPad(i, width);
      ZeroPad(i, width)
    else "-" + ZeroPad(-i, if width == 0 then 0 else width - 1)
  }

  /** `f"{breeder_code}-{bird_year:04d}-{bird_number:02d}"`. For a
      non-negative year and number, splitting on `-` gives the pieces of
      the breeder code followed by the padded year and the padded number,
      so the code may contain dashes without confusing the last two parts. */
  function FormatBandId(code: string, year: int, number: int): (b: string)
    ensures year >= 0 && number >= 0 ==>
              Split(b, Dash) == Split(code, Dash) + [FormatInt(year, 4), FormatInt(number, 2)]
    ensures year >= 0 && number >= 0 ==> |b| >= |code| + 8
  {
    var y := FormatInt(year, 4);
    var n := FormatInt(number, 2);
    var b := code + [Dash] + y + [Dash] + n;
    if year >= 0 && number >= 0 then
      DigitsHaveNoDash(y);
      DigitsHaveNoDash(n);
      SplitAppend(code + [Dash] + y, Dash, n);
      SplitAppend(code, Dash, y);
      b
    else b
  }

  /** `'-'.join(band_id.split('-')[:-2])`, when there are at least three parts. */
  function BreederCodeOf(band: string): (r: Option<string>)
    ensures r.Some? <==> |Split(band, Dash)| >= 3
  {
    var parts := Split(band, Dash);
    if |parts| >= 3 then Some(Join(parts[..|parts| - 2], Dash)) else None
  }

  /** `band_id.split('-')[-2]`, when there are at least two parts. */
  function YearPartOf(band: string): (r: Option<string>)
    ensures r.Some? <==> |Split(band, Dash)| >= 2
    ensures r.Some? ==> Dash !in r.value
  {
    var parts := Split(band, Dash);
    if |parts| >= 2 then Some(parts[|parts| - 2]) else None
  }

  /** `band_id.split('-')[-1]`: there is always a last part. */
  function NumberPartOf(band: string): (r: string)
    ensures Dash !in r
  {
    var parts := Split(band, Dash);
    parts[|parts| - 1]
  }

  lemma DigitsHaveNoDash(s: string)
    requires AllDigits(s)
    ensures Dash !in s
  {
  }

  /** Reading a generated band ID back gives the breeder code, the year
      and the number it was made from, for every breeder code (dashes
      included) and every non-negative year and number. */
  lemma {:induction false} BandIdRoundTrip(code: string, year: nat, number: nat)
    ensures var band := FormatBandId(code, year, number);
            && BreederCodeOf(band) == Some(code)
            && YearPartOf(band).Some? && ParseDigits(YearPartOf(band).value) == Some(year)
            && ParseDigits(NumberPartOf(band)) == Some(number)
  {
    var y := FormatInt(year, 4);
    var n := FormatInt(number, 2);
    var parts := Split(FormatBandId(code, year, number), Dash);
    assert parts[..|parts| - 2] == Split(code, Dash);
    JoinSplit(code, Dash);
  }
}
