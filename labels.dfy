/** The key-generation label of a menu caption: `sprintf(label + 36, "% 3d", kb)`
    (source/main.c:193 and 208). The firmware's own `sprintf` reads "% 3d" as
    "fill with spaces to a width of 3", so the number is written right-aligned
    in three columns, followed by the string's terminating NUL. */
module Labels {
  import opened Base

  /** Character offset in a caption where the generation is written. */
  const LABEL_OFFSET: nat := 36

  /** Field width of the "% 3d" conversion. */
  const LABEL_WIDTH: nat := 3

  predicate IsDigit(c: char) { '0' <= c <= '9' }

  predicate AllDigits(s: string) { forall i :: 0 <= i < |s| ==> IsDigit(s[i]) }

  function DigitChar(d: nat): (c: char)
    requires d < 10
    ensures IsDigit(c) && c as int - '0' as int == d
  {
    ('0' as int + d) as char
  }

  /** The decimal digits of `n`, most significant first, with no leading
      zero (what `%d` prints for a non-negative value). */
  function Decimal(n: nat): (s: string)
    ensures 1 <= |s| && AllDigits(s)
    ensures |s| > 1 ==> s[0] != '0'
    ensures |s| == 1 <==> n < 10
    decreases n
  {
    if n < 10 then [DigitChar(n)] else Decimal(n / 10) + [DigitChar(n % 10)]
  }

  /** The value of a string of decimal digits. */
  function ParseDecimal(s: string): (n: nat)
    requires AllDigits(s)
    decreases |s|
  {
    if s == [] then 0
    else 10 * ParseDecimal(s[..|s| - 1]) + (s[|s| - 1] as int - '0' as int)
  }

  /** `s` left-padded with spaces to at least `width` characters. */
  function PadLeft(s: string, width: nat): (r: string)
    ensures |r| == if |s| < width then width else |s|
    ensures r[|r| - |s|..] == s
    ensures forall i :: 0 <= i < |r| - |s| ==> r[i] == ' '
  {
    if |s| < width then seq(width - |s|, _ => ' ') + s else s
  }

  /** What "% 3d" writes for the generation `kb`, without the NUL: at least
      three characters, exactly three iff `kb < 1000`, and `kb` once the
      padding spaces are stripped. */
  function Format3(kb: nat): (f: string)
    ensures |f| >= LABEL_WIDTH
    ensures |f| == LABEL_WIDTH <==> kb < 1000
    ensures AllDigits(TrimLeft(f)) && ParseDecimal(TrimLeft(f)) == kb
  {
    DecimalWidth(kb);
    TrimPadding(Decimal(kb), LABEL_WIDTH);
    DecimalRoundTrip(kb);
    PadLeft(Decimal(kb), LABEL_WIDTH)
  }

  /** `s` without its leading spaces. */
  function TrimLeft(s: string): (r: string)
    decreases |s|
  {
    if s != [] && s[0] == ' ' then TrimLeft(s[1..]) else s
  }

  /** The generation a caption displays: the number after the spaces that
      follow column 36. */
  function GenerationShown(caption: string): nat
    requires |caption| >= LABEL_OFFSET && AllDigits(TrimLeft(caption[LABEL_OFFSET..]))
  {
    ParseDecimal(TrimLeft(caption[LABEL_OFFSET..]))
  }

  /** The caption after `sprintf(label + 36, "% 3d", kb)`: the first 36
      characters are kept and the C string now ends after the number. */
  function InsertGeneration(caption: string, kb: nat): (r: string)
    requires |caption| >= LABEL_OFFSET
    ensures |r| >= LABEL_OFFSET + LABEL_WIDTH
    ensures |r| == LABEL_OFFSET + LABEL_WIDTH <==> kb < 1000
    ensures r[..LABEL_OFFSET] == caption[..LABEL_OFFSET]
    ensures AllDigits(TrimLeft(r[LABEL_OFFSET..])) && GenerationShown(r) == kb
  {
    var f := Format3(kb);
    var r := caption[..LABEL_OFFSET] + f;
    assert r[LABEL_OFFSET..] == f;
    r
  }

  /** A caption after the inspector has run: changed only when the
      package was recognised (`if (pkg1_id)`). */
  function Labelled(caption: string, kb: Option<nat>): (r: string)
    requires |caption| >= LABEL_OFFSET
    ensures |r| >= LABEL_OFFSET && r[..LABEL_OFFSET] == caption[..LABEL_OFFSET]
    ensures kb.None? ==> r == caption
    ensures kb.Some? ==> AllDigits(TrimLeft(r[LABEL_OFFSET..])) && GenerationShown(r) == kb.value
  {
    match kb
    case None => caption
    case Some(g) => InsertGeneration(caption, g)
  }


  /** Parsing undoes printing. */
  lemma {:induction false} DecimalRoundTrip(n: nat)
    ensures ParseDecimal(Decimal(n)) == n
    decreases n
  {
    if n >= 10 {
      var s := Decimal(n);
      assert s[..|s| - 1] == Decimal(n / 10);
      DecimalRoundTrip(n / 10);
    }
  }

  /** The number fits the three columns exactly when it is below 1000. */
  lemma {:induction false} DecimalWidth(n: nat)
    ensures |Decimal(n)| <= LABEL_WIDTH <==> n < 1000
    decreases n
  {
    if n >= 10 {
      DecimalWidth(n / 10);
      if n / 10 >= 10 {
        DecimalWidth(n / 100);
        assert (n / 10) / 10 == n / 100;
      }
    }
  }

  /** Removing the padding gives back the digits. */
  lemma {:induction false} TrimPadding(s: string, width: nat)
    requires s != [] && s[0] != ' '
    ensures TrimLeft(PadLeft(s, width)) == s
    decreases width
  {
    if |s| < width {
      var p := PadLeft(s, width);
      assert p[0] == ' ';
      assert p[1..] == PadLeft(s, width - 1);
      TrimPadding(s, width - 1);
    }
  }
}
