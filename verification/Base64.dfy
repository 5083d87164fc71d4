/** The padded base64 of section 4 of RFC 4648, on text without white space. */
module Base64 {
  import opened Wrappers

  type Octet = x: int | 0 <= x < 256
  type Sextet = x: int | 0 <= x < 64

  predicate IsAlphabet(c: char)
  {
    'A' <= c <= 'Z' || 'a' <= c <= 'z' || '0' <= c <= '9' || c == '+' || c == '/'
  }

  /** Alphabet and padding only. */
  predicate IsText(s: string)
  {
    forall i :: 0 <= i < |s| ==> IsAlphabet(s[i]) || s[i] == '='
  }

  function Symbol(v: Sextet): (c: char)
    ensures IsAlphabet(c)
  {
    if v < 26 then ('A' as int + v) as char
    else if v < 52 then ('a' as int + v - 26) as char
    else if v < 62 then ('0' as int + v - 52) as char
    else if v == 62 then '+' else '/'
  }

  function SymbolValue(c: char): (v: Sextet)
    requires IsAlphabet(c)
    ensures Symbol(v) == c
  {
    if 'A' <= c <= 'Z' then c as int - 'A' as int
    else if 'a' <= c <= 'z' then c as int - 'a' as int + 26
    else if '0' <= c <= '9' then c as int - '0' as int + 52
    else if c == '+' then 62 else 63
  }

  lemma SymbolRoundTrip(v: Sextet)
    ensures SymbolValue(Symbol(v)) == v
  {
  }

  function Encode(b: seq<Octet>): (s: string)
    ensures IsText(s)
  {
    if |b| == 0 then ""
    else if |b| == 1 then [Symbol(b[0] / 4), Symbol(b[0] % 4 * 16), '=', '=']
    else if |b| == 2 then
      [Symbol(b[0] / 4), Symbol(b[0] % 4 * 16 + b[1] / 16), Symbol(b[1] % 16 * 4), '=']
    else
      [Symbol(b[0] / 4), Symbol(b[0] % 4 * 16 + b[1] / 16), Symbol(b[1] % 16 * 4 + b[2] / 64), Symbol(b[2] % 64)]
      + Encode(b[3..])
  }

  function First(u: Sextet, v: Sextet): Octet { u * 4 + v / 16 }
  function Second(v: Sextet, w: Sextet): Octet { v % 16 * 16 + w / 4 }
  function Third(w: Sextet, x: Sextet): Octet { w % 4 * 64 + x }

  /** Padding ends the text; left-over bits of the last symbol are ignored. */
  function Decode(s: string): (r: Option<seq<Octet>>)
  {
    if s == "" then Some([])
    else if |s| < 4 || !IsAlphabet(s[0]) || !IsAlphabet(s[1]) then None
    else
      var u, v := SymbolValue(s[0]), SymbolValue(s[1]);
      if s[3] == '=' && |s| == 4 then
        if s[2] == '=' then Some([First(u, v)])
        else if IsAlphabet(s[2]) then Some([First(u, v), Second(v, SymbolValue(s[2]))])
        else None
      else if IsAlphabet(s[2]) && IsAlphabet(s[3]) then
        var w, x := SymbolValue(s[2]), SymbolValue(s[3]);
        match Decode(s[4..])
        case Some(rest) => Some([First(u, v), Second(v, w), Third(w, x)] + rest)
        case None => None
      else None
  }

  lemma OctetsBack(a: Octet, b: Octet, c: Octet)
    ensures First(a / 4, a % 4 * 16 + b / 16) == a
    ensures Second(a % 4 * 16 + b / 16, b % 16 * 4 + c / 64) == b
    ensures Third(b % 16 * 4 + c / 64, c % 64) == c
  {
  }

  lemma {:induction false} DecodeQuantum(u: Sextet, v: Sextet, w: Sextet, x: Sextet, rest: string)
    requires Decode(rest).Some?
    ensures Decode([Symbol(u), Symbol(v), Symbol(w), Symbol(x)] + rest)
         == Some([First(u, v), Second(v, w), Third(w, x)] + Decode(rest).value)
  {
    SymbolRoundTrip(u);
    SymbolRoundTrip(v);
    SymbolRoundTrip(w);
    SymbolRoundTrip(x);
    assert ([Symbol(u), Symbol(v), Symbol(w), Symbol(x)] + rest)[4..] == rest;
  }

  lemma {:induction false} DecodeEncode(b: seq<Octet>)
    ensures Decode(Encode(b)) == Some(b)
  {
    if |b| < 3 {
      DecodeEncodeShort(b);
    } else {
      var rest := b[3..];
      assert b == [b[0], b[1], b[2]] + rest;
      DecodeEncode(rest);
      DecodeEncodeLong(b, b[0], b[1], b[2], rest);
    }
  }

  lemma {:induction false} DecodeEncodeLong(b: seq<Octet>, x: Octet, y: Octet, z: Octet, rest: seq<Octet>)
    requires b == [x, y, z] + rest && Decode(Encode(rest)) == Some(rest)
    ensures Decode(Encode(b)) == Some(b)
  {
    DecodeQuantum(x / 4, x % 4 * 16 + y / 16, y % 16 * 4 + z / 64, z % 64, Encode(rest));
    OctetsBack(x, y, z);
    EncodeQuantum(b, x, y, z, rest);
  }

  lemma {:induction false} EncodeQuantum(b: seq<Octet>, x: Octet, y: Octet, z: Octet, rest: seq<Octet>)
    requires b == [x, y, z] + rest
    ensures Encode(b) == [Symbol(x / 4), Symbol(x % 4 * 16 + y / 16), Symbol(y % 16 * 4 + z / 64), Symbol(z % 64)]
                         + Encode(rest)
  {
    assert b[3..] == rest;
  }

  lemma {:induction false} DecodeEncodeShort(b: seq<Octet>)
    requires |b| < 3
    ensures Decode(Encode(b)) == Some(b)
  {
    if |b| == 1 {
      DecodeEncodeOne(b[0]);
      assert b == [b[0]];
    } else if |b| == 2 {
      DecodeEncodeTwo(b[0], b[1]);
      assert b == [b[0], b[1]];
    }
  }

  lemma DecodeEncodeOne(a: Octet)
    ensures Decode(Encode([a])) == Some([a])
  {
    OctetsBack(a, 0, 0);
    SymbolRoundTrip(a / 4);
    SymbolRoundTrip(a % 4 * 16);
  }

  lemma DecodeEncodeTwo(a: Octet, b: Octet)
    ensures Decode(Encode([a, b])) == Some([a, b])
  {
    OctetsBack(a, b, 0);
    SymbolRoundTrip(a / 4);
    SymbolRoundTrip(a % 4 * 16 + b / 16);
    SymbolRoundTrip(b % 16 * 4);
  }

  /**
   * The 24 bits of three octets are those of the four symbols that encode them, most
   * significant first (section 4 of RFC 4648).
   */
  lemma {:induction false} SameBits(b: seq<Octet>)
    requires 3 <= |b|
    ensures var s := Encode(b);
            && 4 <= |s| && IsAlphabet(s[0]) && IsAlphabet(s[1]) && IsAlphabet(s[2]) && IsAlphabet(s[3])
            && Bits(SymbolValue(s[0]), SymbolValue(s[1]), SymbolValue(s[2]), SymbolValue(s[3]))
               == (b[0] as int * 256 + b[1] as int) * 256 + b[2] as int
            && s[4..] == Encode(b[3..])
  {
    hide Symbol;
    hide SymbolValue;
    hide Bits;
    hide Encode;
    assert b == [b[0], b[1], b[2]] + b[3..];
    EncodeQuantum(b, b[0], b[1], b[2], b[3..]);
    QuantumBits(b[0], b[1], b[2]);
  }

  lemma QuantumBits(x: Octet, y: Octet, z: Octet)
    ensures Bits(SymbolValue(Symbol(x / 4)), SymbolValue(Symbol(x % 4 * 16 + y / 16)),
                 SymbolValue(Symbol(y % 16 * 4 + z / 64)), SymbolValue(Symbol(z % 64)))
         == (x as int * 256 + y as int) * 256 + z as int
  {
    hide Symbol;
    hide SymbolValue;
    SymbolRoundTrip(x / 4);
    SymbolRoundTrip(x % 4 * 16 + y / 16);
    SymbolRoundTrip(y % 16 * 4 + z / 64);
    SymbolRoundTrip(z % 64);
    BitsOf(x, y, z);
  }

  /** The number four symbols write. */
  function Bits(u: Sextet, v: Sextet, w: Sextet, x: Sextet): int
  {
    ((u as int * 64 + v as int) * 64 + w as int) * 64 + x as int
  }

  lemma BitsOf(x: Octet, y: Octet, z: Octet)
    ensures Bits(x / 4, x % 4 * 16 + y / 16, y % 16 * 4 + z / 64, z % 64)
         == (x as int * 256 + y as int) * 256 + z as int
  {
  }

  /** The alphabet of section 4 of RFC 4648: the capitals, the small letters, the digits, plus and slash. */
  lemma SymbolTable(v: Sextet)
    ensures v == 0 ==> Symbol(v) == 'A'
    ensures v == 26 ==> Symbol(v) == 'a'
    ensures v == 52 ==> Symbol(v) == '0'
    ensures v == 62 ==> Symbol(v) == '+'
    ensures v == 63 ==> Symbol(v) == '/'
    ensures 0 < v < 26 || 26 < v < 52 || 52 < v < 62 ==> Symbol(v) as int == Symbol(v - 1) as int + 1
  {
  }

  /** Exactly the symbols are accepted. */
  lemma AlphabetIff(c: char)
    ensures IsAlphabet(c) <==> exists v: Sextet :: Symbol(v) == c
  {
    if IsAlphabet(c) {
      assert Symbol(SymbolValue(c)) == c;
    }
  }

  /** The 8 bits of a last octet are the first of two symbols; zeros and padding follow. */
  lemma SameBitsOne(x: Octet)
    ensures var s := Encode([x]);
            && |s| == 4 && s[2] == '=' && s[3] == '=' && IsAlphabet(s[0]) && IsAlphabet(s[1])
            && SymbolValue(s[0]) as int * 64 + SymbolValue(s[1]) as int == x as int * 16
  {
    hide SymbolValue;
    hide Symbol;
    SymbolRoundTrip(x / 4);
    SymbolRoundTrip(x % 4 * 16);
  }

  /** The 16 bits of two last octets are the first of three symbols. */
  lemma SameBitsTwo(x: Octet, y: Octet)
    ensures var s := Encode([x, y]);
            && |s| == 4 && s[3] == '=' && IsAlphabet(s[0]) && IsAlphabet(s[1]) && IsAlphabet(s[2])
            && (SymbolValue(s[0]) as int * 64 + SymbolValue(s[1]) as int) * 64 + SymbolValue(s[2]) as int
               == (x as int * 256 + y as int) * 4
  {
    hide SymbolValue;
    hide Symbol;
    SymbolRoundTrip(x / 4);
    SymbolRoundTrip(x % 4 * 16 + y / 16);
    SymbolRoundTrip(y % 16 * 4);
    assert (x / 4 * 64 + (x % 4 * 16 + y / 16)) * 64 + y % 16 * 4 == (x as int * 256 + y as int) * 4;
  }

  /** Quanta of four symbols, the last one perhaps padded with one or two equal signs. */
  predicate WellFormed(s: string)
  {
    var n := |s|;
    && n % 4 == 0
    && (forall i :: 0 <= i < n - 2 ==> IsAlphabet(s[i]))
    && (n > 0 ==> || (s[n - 2] == '=' && s[n - 1] == '=')
                  || (IsAlphabet(s[n - 2]) && (IsAlphabet(s[n - 1]) || s[n - 1] == '=')))
  }

  /** Exactly the well-formed texts decode. */
  lemma {:induction false} DecodeIff(s: string)
    ensures Decode(s).Some? <==> WellFormed(s)
    decreases |s|
  {
    if 4 < |s| {
      DecodeIff(s[4..]);
      WellFormedTail(s);
    }
  }

  lemma WellFormedTail(s: string)
    requires 4 < |s|
    ensures WellFormed(s) <==> (forall i :: 0 <= i < 4 ==> IsAlphabet(s[i])) && WellFormed(s[4..])
  {
    var t := s[4..];
    assert forall i :: 0 <= i < |t| ==> t[i] == s[i + 4];
    assert forall i :: 4 <= i < |s| ==> s[i] == t[i - 4];
    if WellFormed(s) {
      assert |s| >= 8;
    }
  }

  /** What a text decodes to has the bits of its symbols, the left-over ones dropped. */
  lemma {:induction false} DecodeBits(s: string)
    requires Decode(s).Some? && s != ""
    ensures 4 <= |s| && IsAlphabet(s[0]) && IsAlphabet(s[1])
    ensures s[2] == '=' ==>
              var b := Decode(s).value;
              |s| == 4 && |b| == 1 && b[0] as int == (SymbolValue(s[0]) as int * 64 + SymbolValue(s[1]) as int) / 16
    ensures s[2] != '=' && s[3] == '=' ==>
              var b := Decode(s).value;
              && |s| == 4 && |b| == 2 && IsAlphabet(s[2])
              && b[0] as int * 256 + b[1] as int
                 == ((SymbolValue(s[0]) as int * 64 + SymbolValue(s[1]) as int) * 64 + SymbolValue(s[2]) as int) / 4
    ensures s[2] != '=' && s[3] != '=' ==>
              var b := Decode(s).value;
              && 3 <= |b| && IsAlphabet(s[2]) && IsAlphabet(s[3])
              && (b[0] as int * 256 + b[1] as int) * 256 + b[2] as int
                 == Bits(SymbolValue(s[0]), SymbolValue(s[1]), SymbolValue(s[2]), SymbolValue(s[3]))
              && Decode(s[4..]) == Some(b[3..])
  {
    hide SymbolValue;
    var u, v := SymbolValue(s[0]), SymbolValue(s[1]);
    if s[2] != '=' {
      var w := SymbolValue(s[2]);
      if s[3] != '=' {
        var x := SymbolValue(s[3]);
        OctetBits(u, v, w, x);
        assert Decode(s).value[3..] == Decode(s[4..]).value;
      } else {
        OctetBits(u, v, w, 0);
      }
    }
  }

  lemma OctetBits(u: Sextet, v: Sextet, w: Sextet, x: Sextet)
    ensures First(u, v) as int == (u as int * 64 + v as int) / 16
    ensures First(u, v) as int * 256 + Second(v, w) as int == ((u as int * 64 + v as int) * 64 + w as int) / 4
    ensures (First(u, v) as int * 256 + Second(v, w) as int) * 256 + Third(w, x) as int == Bits(u, v, w, x)
  {
  }
}
