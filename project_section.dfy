/**
 * The parts of createProjectSection (js/projects-data.js) that carry rules:
 * the screenshot track and the dot row of the carousel, both built from the
 * project's screenshot list, and the code block whose text is escaped.
 * The markup is modelled as records of the attributes the carousel reads
 * rather than as HTML text.
 */
module ProjectSection {
  import opened Common
  import opened HtmlEscape

  /** One entry of a project's screenshot list. */
  datatype Screenshot = Screenshot(src: string, alt: string)

  /** An `<img class="screenshot">` of the track. */
  datatype SlideImage = SlideImage(src: string, alt: string, active: bool)

  /** A `<span class="dot">` of the dot row. */
  datatype Dot = Dot(active: bool, dataIndex: nat, ariaLabel: string)

  /** The decimal digits of `n`, as a template literal prints a number. */
  function Decimal(n: nat): (s: string)
    ensures |s| >= 1
    ensures forall i :: 0 <= i < |s| ==> '0' <= s[i] <= '9'
    ensures n > 0 ==> s[0] != '0'
    decreases n
  {
    if n < 10 then [DigitChar(n)] else Decimal(n / 10) + [DigitChar(n % 10)]
  }

  function DigitChar(d: nat): (c: char)
    requires d < 10
    ensures '0' <= c <= '9'
    ensures DigitValue(c) == d
  {
    ('0' as int + d) as char
  }

  function DigitValue(c: char): nat {
    if '0' <= c <= '9' then c as int - '0' as int else 0
  }

  /** Reads a string of decimal digits back as a number. */
  function ParseDecimal(s: string): nat {
    if s == [] then 0 else ParseDecimal(s[..|s| - 1]) * 10 + DigitValue(s[|s| - 1])
  }

  /** Printing a number in decimal loses nothing. */
  lemma {:induction false} ParseDecimalOfDecimal(n: nat)
    ensures ParseDecimal(Decimal(n)) == n
  {
    if n >= 10 {
      var s := Decimal(n);
      assert s[..|s| - 1] == Decimal(n / 10);
      ParseDecimalOfDecimal(n / 10);
    }
  }

  /** A digit string without a leading zero reads as a positive number. */
  lemma {:induction false} ParsePositive(s: string)
    requires |s| >= 1 && forall i :: 0 <= i < |s| ==> '0' <= s[i] <= '9'
    requires s[0] != '0'
    ensures ParseDecimal(s) > 0
  {
    if |s| > 1 {
      ParsePositive(s[..|s| - 1]);
    }
  }

  /**
   * Decimal printing is the only way to write a number without a leading
   * zero: any such digit string is the printed form of the value it reads as.
   */
  lemma {:induction false} DecimalUnique(s: string)
    requires |s| >= 1 && forall i :: 0 <= i < |s| ==> '0' <= s[i] <= '9'
    requires s[0] != '0' || |s| == 1
    ensures Decimal(ParseDecimal(s)) == s
  {
    var n := ParseDecimal(s);
    var d := s[|s| - 1];
    assert DigitChar(DigitValue(d)) == d;
    if |s| > 1 {
      var init := s[..|s| - 1];
      ParsePositive(init);
      assert n / 10 == ParseDecimal(init) && n % 10 == DigitValue(d);
      DecimalUnique(init);
      assert s == init + [d];
    } else {
      assert s == [d];
    }
  }

  /** The aria-label of the dot at position `index`; slides are numbered from 1 for people. */
  function DotLabel(index: nat): (text: string)
    ensures |text| > |DotLabelPrefix|
    ensures text[..|DotLabelPrefix|] == DotLabelPrefix
    ensures forall k :: |DotLabelPrefix| <= k < |text| ==> '0' <= text[k] <= '9'
    ensures text[|DotLabelPrefix|] != '0'
    ensures ParseDecimal(text[|DotLabelPrefix|..]) == index + 1
  {
    ParseDecimalOfDecimal(index + 1);
    var text := DotLabelPrefix + Decimal(index + 1);
    assert text[|DotLabelPrefix|..] == Decimal(index + 1);
    text
  }

  const DotLabelPrefix: string := "Go to slide "

  /**
   * DotLabel's contract pins the label: any text that starts with the prefix
   * and continues with the digits of index + 1, without a leading zero, is it.
   */
  lemma DotLabelDetermined(index: nat, text: string)
    requires |text| > |DotLabelPrefix| && text[..|DotLabelPrefix|] == DotLabelPrefix
    requires forall k :: |DotLabelPrefix| <= k < |text| ==> '0' <= text[k] <= '9'
    requires text[|DotLabelPrefix|] != '0'
    requires ParseDecimal(text[|DotLabelPrefix|..]) == index + 1
    ensures text == DotLabel(index)
  {
    var digits := text[|DotLabelPrefix|..];
    DecimalUnique(digits);
    assert text == DotLabelPrefix + digits;
  }

  /** Different dots are never announced with the same label. */
  lemma DotLabelsDistinct(i: nat, j: nat)
    requires i != j
    ensures DotLabel(i) != DotLabel(j)
  {
  }

  /** The screenshot track: one image per screenshot, only the first one active. */
  function SlideImages(shots: seq<Screenshot>): (images: seq<SlideImage>)
    ensures |images| == |shots|
    ensures forall i :: 0 <= i < |shots| ==>
      images[i].src == shots[i].src && images[i].alt == shots[i].alt
  {
    seq(|shots|, i requires 0 <= i < |shots| => SlideImage(shots[i].src, shots[i].alt, i == 0))
  }

  /** The dot row: one dot per screenshot, carrying its position and label. */
  function Dots(shots: seq<Screenshot>): (dots: seq<Dot>)
    ensures |dots| == |shots|
    ensures forall i :: 0 <= i < |dots| ==> dots[i].dataIndex == i && dots[i].ariaLabel == DotLabel(i)
  {
    seq(|shots|, i requires 0 <= i < |shots| => Dot(i == 0, i, DotLabel(i)))
  }

  /** Which elements of a list carry the `active` class. */
  function Flags<T>(xs: seq<T>, isActive: T -> bool): (flags: seq<bool>)
    ensures |flags| == |xs|
    ensures forall i :: 0 <= i < |xs| ==> flags[i] == isActive(xs[i])
  {
    seq(|xs|, i requires 0 <= i < |xs| => isActive(xs[i]))
  }

  /**
   * The markup starts the carousel on its first slide: the image and the dot
   * at position 0 are the only active ones, which is the state showSlide(0)
   * produces, so a non-empty project shows exactly one image and one dot.
   */
  lemma InitialSlideActive(shots: seq<Screenshot>)
    ensures Flags(SlideImages(shots), (im: SlideImage) => im.active) == OneHot(|shots|, 0)
    ensures Flags(Dots(shots), (d: Dot) => d.active) == OneHot(|shots|, 0)
    ensures |shots| > 0 ==>
      Count(Flags(SlideImages(shots), (im: SlideImage) => im.active)) == 1 &&
      Count(Flags(Dots(shots), (d: Dot) => d.active)) == 1
  {
    OneHotCount(|shots|, 0);
  }

  const CodeOpen: string := "<code>"
  const CodeClose: string := "</code>"

  /** The `<code>` element of a code highlight, holding the escaped snippet. */
  function CodeElement(code: string): (html: string)
    ensures StartsWith(html, CodeOpen)
    ensures |html| >= |CodeOpen| + |CodeClose|
    ensures html[|html| - |CodeClose|..] == CodeClose
    ensures html[|CodeOpen|..|html| - |CodeClose|] == EscapeHtml(code)
    ensures NoMarkup(html[|CodeOpen|..|html| - |CodeClose|])
    ensures DecodeEntities(html[|CodeOpen|..|html| - |CodeClose|]) == code
  {
    DecodeEscape(code);
    var body := EscapeHtml(code);
    var html := CodeOpen + body + CodeClose;
    assert html[..|CodeOpen|] == CodeOpen;
    assert html[|CodeOpen|..|html| - |CodeClose|] == body;
    assert html[|html| - |CodeClose|..] == CodeClose;
    html
  }
}
