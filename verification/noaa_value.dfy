/** The NOAA encoded value `"<signed tenths>,<quality code>"` (for example
    `"+0150,5"`, 15.0 degrees) and its decoder `parse_noaa_val`. */
module NoaaValue {
  import opened Wrappers
  import opened Cells
  import opened Decimal

  /** The reading NOAA writes for "no observation". */
  const Sentinel: int := 9999

  /** The text before the first comma, or all of `s` when it has none: what
      Python's `s.split(',')[0]` yields. The three ensures pin it down: the
      longest comma-free prefix. */
  function BeforeComma(s: string): (p: string)
    ensures p <= s
    ensures ',' !in p
    ensures |p| < |s| ==> s[|p|] == ','
  {
    if s == [] || s[0] == ',' then [] else [s[0]] + BeforeComma(s[1..])
  }

  /** `parse_noaa_val`: the reading in tenths of a degree, or None for a value
      that is not a string, a number part that does not parse, or the
      sentinel. It never fails: every malformed input maps to None. */
  function DecodeTenths(v: Cell): (r: Option<int>)
    ensures !v.Text? ==> r == None
    ensures v.Text? && !IsSignedDecimal(BeforeComma(v.s)) ==> r == None
    ensures r.Some? ==> r.value != Sentinel
    ensures v.Text? && IsSignedDecimal(BeforeComma(v.s)) ==>
      r == if SignedValue(BeforeComma(v.s)) == Sentinel then None else Some(SignedValue(BeforeComma(v.s)))
    ensures r.Some? ==>
      var h := BeforeComma(v.s);
      && IsSignedDecimal(h) && AllDigits(Unsigned(h))
      && (if r.value < 0 then -r.value else r.value) == DigitsValue(Unsigned(h))
      && (r.value < 0 ==> h[0] == '-')
  {
    if !v.Text? then None
    else match ParseSigned(BeforeComma(v.s))
      case None => None
      case Some(n) => if n == Sentinel then None else Some(n)
  }

  /** The decoded reading in degrees Celsius, as an exact real. */
  function Celsius(v: Cell): (c: Option<real>)
    ensures c.Some? <==> DecodeTenths(v).Some?
    ensures c.Some? ==> c.value * 10.0 == DecodeTenths(v).value as real
  {
    match DecodeTenths(v)
    case None => None
    case Some(n) => Some(n as real / 10.0)
  }

  /** The Fahrenheit value derived from an optional Celsius value: absent
      exactly when the Celsius value is, and otherwise related to it by
      F - 32 = C * 9/5. */
  function Fahrenheit(c: Option<real>): (f: Option<real>)
    ensures f.Some? <==> c.Some?
    ensures f.Some? ==> (f.value - 32.0) * 5.0 == c.value * 9.0
  {
    match c
    case None => None
    case Some(x) => Some(x * 9.0 / 5.0 + 32.0)
  }

  /** A reading in the layout NOAA writes: a sign and at least four digits. */
  function FormatReading(n: int): string {
    FormatSigned(n, 4)
  }

  /** The comma-free text before a comma is what `BeforeComma` keeps, whatever
      follows the comma. */
  lemma BeforeCommaOfSplit(p: string, q: string)
    requires ',' !in p
    ensures BeforeComma(p + [','] + q) == p
    ensures BeforeComma(p) == p
  {
    var s := p + [','] + q;
    assert s[..|p|] == p && s[|p|] == ',';
  }

  /** The quality code is ignored: a value with a comma decodes as its part
      before the comma does, and that part alone (no comma at all) is not
      rejected. */
  lemma QualityCodeIgnored(p: string, q: string)
    requires ',' !in p
    ensures DecodeTenths(Text(p + "," + q)) == DecodeTenths(Text(p))
  {
    BeforeCommaOfSplit(p, q);
  }

  /** Decoding an encoded reading gives the reading back, except that the
      sentinel decodes to None, whatever the quality code. */
  lemma DecodeEncoded(n: int, q: string)
    ensures DecodeTenths(Text(FormatReading(n) + "," + q)) == if n == Sentinel then None else Some(n)
  {
    var p := FormatReading(n);
    assert forall i :: 0 <= i < |p| ==> p[i] != ',' by {
      forall i | 0 <= i < |p| ensures p[i] != ',' {
        if i > 0 { assert p[i] == p[1..][i - 1]; }
      }
    }
    BeforeCommaOfSplit(p, q);
    ParseFormatRoundTrip(n, 4);
  }

  /** The reading `"+0150,5"` is 15.0 degrees. */
  lemma ReadingExample()
    ensures DecodeTenths(Text("+0150,5")) == Some(150)
  {
    assert BeforeComma("+0150,5") == "+0150";
    assert Accumulate("0150", 0) == Some(150);
  }

  /** A dew point `"+0050,5"` is 5.0 degrees. */
  lemma DewPointExample()
    ensures DecodeTenths(Text("+0050,5")) == Some(50)
  {
    assert BeforeComma("+0050,5") == "+0050";
    assert Accumulate("0050", 0) == Some(50);
  }

  /** The sentinel is absent whatever its quality code. */
  lemma SentinelExample()
    ensures DecodeTenths(Text("9999,9")) == None
  {
    assert BeforeComma("9999,9") == "9999";
  }

  /** A sign character does not hide the sentinel. */
  lemma SignedSentinelExample()
    ensures DecodeTenths(Text("+9999,1")) == None
  {
    assert BeforeComma("+9999,1") == "+9999";
  }

  /** `"0000,1"` is a legitimate zero reading, not a missing one. */
  lemma ZeroExample()
    ensures DecodeTenths(Text("0000,1")) == Some(0)
  {
    assert BeforeComma("0000,1") == "0000";
  }

  /** A value without a comma is decoded whole. */
  lemma NoCommaExample()
    ensures DecodeTenths(Text("150")) == Some(150)
  {
    assert BeforeComma("150") == "150";
  }

  /** The sentinel test is on the signed value, so -9999 is a reading. */
  lemma NegativeSentinelExample()
    ensures DecodeTenths(Text("-9999")) == Some(-9999)
  {
    assert BeforeComma("-9999") == "-9999";
  }

  /** A sign alone is not a number. */
  lemma SignOnlyExample()
    ensures DecodeTenths(Text("+,5")) == None
  {
    assert BeforeComma("+,5") == "+";
  }
}
