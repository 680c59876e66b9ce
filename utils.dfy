/** The colour helpers of src/lib/commons/utils/utils.c: hexadecimal
    `#RRGGBB` colours, a small table of named colours and the inverted
    colour written as uppercase `#RRGGBB`. A C string is a `string` without
    its terminating NUL, and a NULL pointer is `None`. */
module Utils {
  import opened Common

  datatype Rgb = Rgb(r: int, g: int, b: int)

  /** Every component fits a byte. */
  predicate InBytes(c: Rgb)
  {
    0 <= c.r < 256 && 0 <= c.g < 256 && 0 <= c.b < 256
  }

  /** duplicate_string: a copy with the same characters, NULL for NULL. */
  function DuplicateString(s: Option<string>): (d: Option<string>)
    ensures d.Some? <==> s.Some?
    ensures d.Some? ==> |d.value| == |s.value| && forall i | 0 <= i < |s.value| :: d.value[i] == s.value[i]
  {
    s
  }

  predicate IsHexDigit(c: char)
  {
    ('0' <= c <= '9') || ('a' <= c <= 'f') || ('A' <= c <= 'F')
  }

  /** The digit `n` as printed by `%X`. */
  function HexDigit(n: int): char
    requires 0 <= n < 16
  {
    if n < 10 then ('0' as int + n) as char else ('A' as int + (n - 10)) as char
  }

  /** A hexadecimal digit in the uppercase form `%X` prints. */
  function UpperHex(c: char): char
  {
    if 'a' <= c <= 'f' then (c as int - 'a' as int + 'A' as int) as char else c
  }

  /** hex_value: the value of a hexadecimal digit, -1 for any other character. */
  function HexValue(c: char): (v: int)
    ensures -1 <= v < 16
    ensures v >= 0 <==> IsHexDigit(c)
  {
    if '0' <= c <= '9' then c as int - '0' as int
    else if 'a' <= c <= 'f' then 10 + (c as int - 'a' as int)
    else if 'A' <= c <= 'F' then 10 + (c as int - 'A' as int)
    else -1
  }

  /** Printing a digit and reading it back gives the digit. */
  lemma HexDigitValue(n: int)
    requires 0 <= n < 16
    ensures IsHexDigit(HexDigit(n)) && HexValue(HexDigit(n)) == n
    ensures UpperHex(HexDigit(n)) == HexDigit(n)
  {
  }

  /** Reading a digit and printing it back gives its uppercase form. */
  lemma HexValueDigit(c: char)
    requires IsHexDigit(c)
    ensures HexDigit(HexValue(c)) == UpperHex(c)
  {
  }

  /** The colour a `#RRGGBB` string denotes, if it is one. */
  function HexColor(s: string): Option<Rgb>
  {
    if |s| == 7 && s[0] == '#' && forall i | 1 <= i < 7 :: IsHexDigit(s[i]) then
      Some(Rgb(HexValue(s[1]) * 16 + HexValue(s[2]),
               HexValue(s[3]) * 16 + HexValue(s[4]),
               HexValue(s[5]) * 16 + HexValue(s[6])))
    else None
  }

  /** A parsed colour has byte components. */
  lemma HexColorInBytes(s: string)
    requires HexColor(s).Some?
    ensures InBytes(HexColor(s).value)
  {
    var i := 1;
    while i < 7
      invariant 1 <= i <= 7
      invariant forall m | 1 <= m < i :: 0 <= HexValue(s[m]) < 16
    {
      assert IsHexDigit(s[i]);
      i := i + 1;
    }
  }

  /** parse_hex_color: status 0 and the components for `#` followed by
      exactly six hexadecimal digits; status -1 and the out-parameters left
      as they were (`init`) otherwise. */
  method ParseHexColor(s: Option<string>, init: Rgb) returns (status: int, rgb: Rgb)
    ensures status == 0 || status == -1
    ensures status == 0 <==> s.Some? && HexColor(s.value).Some?
    ensures status == 0 ==> rgb == HexColor(s.value).value
    ensures status != 0 ==> rgb == init
  {
    if s.None? || |s.value| == 0 || s.value[0] != '#' {
      return -1, init;
    }
    if |s.value| != 7 {
      return -1, init;
    }
    var v := new int[6];
    var t := s.value;
    for i := 0 to 6
      invariant forall m | 1 <= m < i + 1 :: IsHexDigit(t[m])
      invariant forall m | 0 <= m < i :: v[m] == HexValue(t[m + 1])
    {
      var hv := HexValue(t[1 + i]);
      if hv < 0 {
        return -1, init;
      }
      v[i] := hv;
    }
    return 0, Rgb(v[0] * 16 + v[1], v[2] * 16 + v[3], v[4] * 16 + v[5]);
  }

  /** named_color_rgb: the eleven colour names, compared exactly and so
      case-sensitively; none for NULL or any other name. */
  function NamedColor(name: Option<string>): (c: Option<Rgb>)
    ensures c.Some? ==> name.Some? && InBytes(c.value)
    ensures c.Some? ==> 3 <= |name.value| <= 6 && forall i | 0 <= i < |name.value| :: 'a' <= name.value[i] <= 'z'
  {
    if name.None? then None
    else
      var n := name.value;
      if n == "black" then Some(Rgb(0, 0, 0))
      else if n == "white" then Some(Rgb(255, 255, 255))
      else if n == "red" then Some(Rgb(255, 0, 0))
      else if n == "green" then Some(Rgb(0, 128, 0))
      else if n == "blue" then Some(Rgb(0, 0, 255))
      else if n == "yellow" then Some(Rgb(255, 255, 0))
      else if n == "pink" then Some(Rgb(255, 192, 203))
      else if n == "cyan" then Some(Rgb(0, 255, 255))
      else if n == "orange" then Some(Rgb(255, 165, 0))
      else if n == "teal" then Some(Rgb(0, 128, 128))
      else if n == "purple" then Some(Rgb(128, 0, 128))
      else None
  }

  /** The table of named_color_rgb: eleven lowercase names and their
      values, and no other name. */
  lemma NamedColorTable()
    ensures NamedColor(Some("black")) == Some(Rgb(0, 0, 0))
    ensures NamedColor(Some("white")) == Some(Rgb(255, 255, 255))
    ensures NamedColor(Some("red")) == Some(Rgb(255, 0, 0))
    ensures NamedColor(Some("green")) == Some(Rgb(0, 128, 0))
    ensures NamedColor(Some("blue")) == Some(Rgb(0, 0, 255))
    ensures NamedColor(Some("yellow")) == Some(Rgb(255, 255, 0))
    ensures NamedColor(Some("pink")) == Some(Rgb(255, 192, 203))
    ensures NamedColor(Some("cyan")) == Some(Rgb(0, 255, 255))
    ensures NamedColor(Some("orange")) == Some(Rgb(255, 165, 0))
    ensures NamedColor(Some("teal")) == Some(Rgb(0, 128, 128))
    ensures NamedColor(Some("purple")) == Some(Rgb(128, 0, 128))
    ensures forall n :: NamedColor(Some(n)).Some? ==>
      n in {"black", "white", "red", "green", "blue", "yellow", "pink", "cyan", "orange", "teal", "purple"}
    ensures NamedColor(Some("Red")) == None && NamedColor(None) == None
  {
  }

  function Invert(c: Rgb): Rgb
  {
    Rgb(255 - c.r, 255 - c.g, 255 - c.b)
  }

  /** A colour as `#%02X%02X%02X` prints it. */
  function Format(c: Rgb): (s: string)
    requires InBytes(c)
  {
    ['#', HexDigit(c.r / 16), HexDigit(c.r % 16), HexDigit(c.g / 16), HexDigit(c.g % 16),
     HexDigit(c.b / 16), HexDigit(c.b % 16)]
  }

  /** The colour invert_color recognises in `s`: a hexadecimal colour
      first, then a named one. */
  function Recognized(s: string): Option<Rgb>
  {
    if HexColor(s).Some? then HexColor(s) else NamedColor(Some(s))
  }

  /** Every recognised colour, hexadecimal or named, has byte components. */
  lemma RecognizedInBytes(s: string)
    requires Recognized(s).Some?
    ensures InBytes(Recognized(s).value)
  {
    if HexColor(s).Some? {
      HexColorInBytes(s);
    }
  }

  /** What invert_color returns: NULL for NULL, the inverted colour in
      uppercase `#RRGGBB` for a recognised colour, and otherwise a copy of
      the input. */
  function Inverted(color: Option<string>): Option<string>
  {
    match color
    case None => None
    case Some(s) =>
      match Recognized(s)
      case None => Some(s)
      case Some(c) =>
        RecognizedInBytes(s);
        Some(Format(Invert(c)))
  }

  /** invert_color. */
  method InvertColor(color: Option<string>) returns (out: Option<string>)
    ensures out == Inverted(color)
  {
    if color.None? {
      return None;
    }
    var status, c := ParseHexColor(color, Rgb(0, 0, 0));
    if status != 0 {
      var named := NamedColor(color);
      assert Recognized(color.value) == named;
      if named.None? {
        return DuplicateString(color);
      }
      c := named.value;
    } else {
      HexColorInBytes(color.value);
      assert Recognized(color.value) == Some(c);
    }
    var ir, ig, ib := 255 - c.r, 255 - c.g, 255 - c.b;
    assert Rgb(ir, ig, ib) == Invert(c);
    out := Some(Format(Rgb(ir, ig, ib)));
  }

  /** A recognised colour inverts to seven characters: `#` and six
      uppercase hexadecimal digits. */
  lemma InvertedShape(s: string)
    requires Recognized(s).Some?
    ensures Inverted(Some(s)).Some?
    ensures var o := Inverted(Some(s)).value;
      |o| == 7 && o[0] == '#' && forall i | 1 <= i < 7 :: IsHexDigit(o[i]) && o[i] == UpperHex(o[i])
  {
    var c := Invert(Recognized(s).value);
    if HexColor(s).Some? {
      HexColorInBytes(s);
    }
    HexDigitValue(c.r / 16);
    HexDigitValue(c.r % 16);
    HexDigitValue(c.g / 16);
    HexDigitValue(c.g % 16);
    HexDigitValue(c.b / 16);
    HexDigitValue(c.b % 16);
  }

  /** Reading back a printed byte. */
  lemma ByteDigits(n: int)
    requires 0 <= n < 256
    ensures IsHexDigit(HexDigit(n / 16)) && IsHexDigit(HexDigit(n % 16))
    ensures HexValue(HexDigit(n / 16)) * 16 + HexValue(HexDigit(n % 16)) == n
  {
    HexDigitValue(n / 16);
    HexDigitValue(n % 16);
  }

  /** Parsing a printed colour gives the colour back. */
  lemma ParseFormat(c: Rgb)
    requires InBytes(c)
    ensures HexColor(Format(c)) == Some(c)
  {
    ByteDigits(c.r);
    ByteDigits(c.g);
    ByteDigits(c.b);
  }

  /** The digits of `s` in the uppercase form. */
  function UpperForm(s: string): (u: string)
    ensures |u| == |s|
  {
    if s == [] then [] else [UpperHex(s[0])] + UpperForm(s[1..])
  }

  lemma {:induction false} UpperFormAt(s: string)
    ensures forall i | 0 <= i < |s| :: UpperForm(s)[i] == UpperHex(s[i])
  {
    if s != [] {
      UpperFormAt(s[1..]);
    }
  }

  /** Printing the byte of two digits gives them in uppercase. */
  lemma ByteOfDigits(h: char, l: char)
    requires IsHexDigit(h) && IsHexDigit(l)
    ensures var n := HexValue(h) * 16 + HexValue(l);
      0 <= n < 256 && HexDigit(n / 16) == UpperHex(h) && HexDigit(n % 16) == UpperHex(l)
  {
    var n := HexValue(h) * 16 + HexValue(l);
    assert n / 16 == HexValue(h) && n % 16 == HexValue(l);
    HexValueDigit(h);
    HexValueDigit(l);
  }

  /** Printing a parsed colour gives its text in the uppercase form. */
  lemma FormatParse(s: string)
    requires HexColor(s).Some?
    ensures InBytes(HexColor(s).value)
    ensures Format(HexColor(s).value) == "#" + UpperForm(s[1..])
  {
    HexColorInBytes(s);
    assert IsHexDigit(s[1]) && IsHexDigit(s[2]) && IsHexDigit(s[3]);
    assert IsHexDigit(s[4]) && IsHexDigit(s[5]) && IsHexDigit(s[6]);
    ByteOfDigits(s[1], s[2]);
    ByteOfDigits(s[3], s[4]);
    ByteOfDigits(s[5], s[6]);
    UpperFormAt(s[1..]);
  }

  /** Inverting a hexadecimal colour twice gives it back in uppercase. */
  lemma InvertTwice(s: string)
    requires HexColor(s).Some?
    ensures Inverted(Inverted(Some(s))) == Some("#" + UpperForm(s[1..]))
  {
    var c := HexColor(s).value;
    HexColorInBytes(s);
    var o := Format(Invert(c));
    ParseFormat(Invert(c));
    assert Invert(Invert(c)) == c;
    FormatParse(s);
  }

  /** "green" (0, 128, 0) inverts to "#FF7FFF". */
  lemma InvertGreen()
    ensures Inverted(Some("green")) == Some("#FF7FFF")
  {
    assert HexColor("green").None?;
    assert Recognized("green") == Some(Rgb(0, 128, 0));
    assert Format(Rgb(255, 127, 255)) == "#FF7FFF";
  }
}
