/**
 * PEM text without headers (section 3 of RFC 7468).  A block runs from the last
 * BEGIN line before an END line to that END line; everything else is skipped,
 * and so is a block whose lines do not match or whose body is not base64.
 */
module Pem {
  import opened Wrappers
  import opened Text
  import Base64

  const BEGIN := "-----BEGIN "
  const END := "-----END "
  const DASHES := "-----"
  const LINE_LENGTH := 64

  datatype Block = Block(typ: string, bytes: seq<Base64.Octet>)

  /** A block whose BEGIN line has been read, with the body text read since. */
  datatype Opened = Opened(typ: string, body: string)

  function BeginLine(typ: string): string
  {
    BEGIN + typ + DASHES
  }

  function EndLine(typ: string): string
  {
    END + typ + DASHES
  }

  /** A BEGIN marker occurs after the start of the line. */
  predicate Spoiled(line: string)
  {
    exists i :: 0 < i <= |line| && HasPrefix(line[i..], BEGIN)
  }

  /** The label can be written on a BEGIN line and read back. */
  predicate ValidLabel(typ: string)
  {
    '\n' !in typ && !Spoiled(BeginLine(typ))
  }

  /** The body without spaces, tabs and line breaks. */
  function Strip(s: string): string
  {
    if s == "" then ""
    else if IsBlank(s[0]) || s[0] == '\r' || s[0] == '\n' then Strip(s[1..])
    else [s[0]] + Strip(s[1..])
  }

  /** A BEGIN line opens a block; a malformed one only discards what was open. */
  function Open(raw: string, line: string): (r: Option<Opened>)
    requires line <= raw && '\n' !in raw
    ensures r.Some? ==> ValidLabel(r.value.typ)
  {
    if !Spoiled(raw) && HasPrefix(line, BEGIN) && HasSuffix(line[|BEGIN|..], DASHES) then
      var typ := line[|BEGIN|..|line| - |DASHES|];
      assert BeginLine(typ) == line;
      SpoiledPrefix(line, raw);
      Some(Opened(typ, ""))
    else None
  }

  lemma SpoiledPrefix(line: string, raw: string)
    requires line <= raw
    ensures Spoiled(line) ==> Spoiled(raw)
  {
    if Spoiled(line) {
      var i :| 0 < i <= |line| && HasPrefix(line[i..], BEGIN);
      assert raw[i..][..|BEGIN|] == line[i..][..|BEGIN|];
    }
  }

  /** An END line completes the open block if its label matches and its body decodes. */
  function Close(open: Option<Opened>, line: string): Option<Block>
  {
    if open.Some? && line == EndLine(open.value.typ) then
      match Base64.Decode(Strip(open.value.body))
      case Some(bytes) => Some(Block(open.value.typ, bytes))
      case None => None
    else None
  }

  function Scan(data: string, open: Option<Opened>): (r: Option<(Block, string)>)
    requires open.Some? ==> ValidLabel(open.value.typ)
    ensures r.Some? ==> |r.value.1| < |data| && ValidLabel(r.value.0.typ)
    decreases |data|
  {
    if data == "" then None
    else
      var raw, line, next := data[..LineEnd(data)], FirstLine(data), AfterLine(data);
      if HasPrefix(raw, END) then
        match Close(open, line)
        case Some(block) => Some((block, next))
        case None => Scan(next, None)
      else if HasPrefix(raw, BEGIN) || Spoiled(raw) then Scan(next, Open(raw, line))
      else Scan(next, if open.Some? then Some(Opened(open.value.typ, open.value.body + raw)) else None)
  }

  /** `pem.Decode`: the first block and the text after it. */
  function Decode(data: string): (r: Option<(Block, string)>)
    ensures r.Some? ==> |r.value.1| < |data| && ValidLabel(r.value.0.typ)
  {
    Scan(data, None)
  }

  function Wrapped(s: string): string
  {
    if s == "" then ""
    else if |s| <= LINE_LENGTH then s + "\n"
    else s[..LINE_LENGTH] + "\n" + Wrapped(s[LINE_LENGTH..])
  }

  /** `pem.EncodeToMemory` */
  function Encode(b: Block): string
  {
    BeginLine(b.typ) + "\n" + Wrapped(Base64.Encode(b.bytes)) + EndLine(b.typ) + "\n"
  }

  lemma {:induction false} StripBody(s: string)
    requires Base64.IsText(s)
    ensures Strip(s) == s
  {
    if s != "" {
      StripBody(s[1..]);
    }
  }

  /** What the scanner sees of a line that ends in neither a blank nor a carriage return. */
  lemma LineParts(line: string, rest: string)
    requires '\n' !in line && line != ""
    requires !IsBlank(line[|line| - 1]) && line[|line| - 1] != '\r'
    ensures var data := line + "\n" + rest;
            data[..LineEnd(data)] == line && FirstLine(data) == line && AfterLine(data) == rest
  {
    LineEndOf(line, rest);
    var data := line + "\n" + rest;
    assert data[..|line|] == line;
    assert data[|line| + 1..] == rest;
  }

  lemma {:induction false} ScanBodyLine(line: string, rest: string, open: Opened)
    requires ValidLabel(open.typ) && line != "" && Base64.IsText(line)
    ensures Scan(line + "\n" + rest, Some(open)) == Scan(rest, Some(Opened(open.typ, open.body + line)))
  {
    LineParts(line, rest);
    assert !Spoiled(line);
  }

  lemma {:induction false} ScanBody(s: string, tail: string, open: Opened)
    requires ValidLabel(open.typ) && Base64.IsText(s)
    ensures Scan(Wrapped(s) + tail, Some(open)) == Scan(tail, Some(Opened(open.typ, open.body + s)))
    decreases |s|
  {
    hide Scan;
    hide ValidLabel;
    if s == "" {
      assert Wrapped(s) + tail == tail;
      assert open.body + s == open.body;
    } else if |s| <= LINE_LENGTH {
      ScanBodyLine(s, tail, open);
    } else {
      var line, more := s[..LINE_LENGTH], s[LINE_LENGTH..];
      var next := Opened(open.typ, open.body + line);
      calc {
        Scan(Wrapped(s) + tail, Some(open));
        { assert Wrapped(s) + tail == line + "\n" + (Wrapped(more) + tail); }
        Scan(line + "\n" + (Wrapped(more) + tail), Some(open));
        { ScanBodyLine(line, Wrapped(more) + tail, open); }
        Scan(Wrapped(more) + tail, Some(next));
        { ScanBody(more, tail, next); }
        Scan(tail, Some(Opened(open.typ, next.body + more)));
        { assert next.body + more == open.body + s; }
        Scan(tail, Some(Opened(open.typ, open.body + s)));
      }
    }
  }

  lemma {:induction false} ScanBeginLine(typ: string, rest: string)
    requires ValidLabel(typ)
    ensures Scan(BeginLine(typ) + "\n" + rest, None) == Scan(rest, Some(Opened(typ, "")))
  {
    hide Open;
    hide Close;
    hide FirstLine;
    hide AfterLine;
    hide LineEnd;
    hide Spoiled;
    var line := BeginLine(typ);
    LineParts(line, rest);
    assert line[..|BEGIN|] == BEGIN;
    assert line[..|END|][5] == 'B';
    OpenBeginLine(typ);
  }

  lemma OpenBeginLine(typ: string)
    requires ValidLabel(typ)
    ensures '\n' !in BeginLine(typ) && Open(BeginLine(typ), BeginLine(typ)) == Some(Opened(typ, ""))
  {
    var line := BeginLine(typ);
    assert line[..|BEGIN|] == BEGIN;
    assert line[|BEGIN|..] == typ + DASHES;
    assert line[|BEGIN|..][|typ|..] == DASHES;
    assert line[|BEGIN|..|line| - |DASHES|] == typ;
  }

  lemma {:induction false} ScanEndLine(typ: string, body: string, rest: string)
    requires ValidLabel(typ) && Base64.Decode(Strip(body)).Some?
    ensures Scan(EndLine(typ) + "\n" + rest, Some(Opened(typ, body)))
         == Some((Block(typ, Base64.Decode(Strip(body)).value), rest))
  {
    var line := EndLine(typ);
    LineParts(line, rest);
    assert line[..|END|] == END;
  }

  /** An encoded block is decoded back, whatever text follows it. */
  lemma {:induction false} DecodeEncode(b: Block, rest: string)
    requires ValidLabel(b.typ)
    ensures Decode(Encode(b) + rest) == Some((b, rest))
  {
    var s := Base64.Encode(b.bytes);
    var tail := EndLine(b.typ) + "\n" + rest;
    assert Encode(b) + rest == BeginLine(b.typ) + "\n" + (Wrapped(s) + tail);
    ScanBeginLine(b.typ, Wrapped(s) + tail);
    ScanBody(s, tail, Opened(b.typ, ""));
    assert "" + s == s;
    StripBody(s);
    Base64.DecodeEncode(b.bytes);
    ScanEndLine(b.typ, s, rest);
  }

  /** Every block `pem.Decode` finds when it is called again on what it leaves. */
  function Blocks(data: string): (bs: seq<Block>)
    ensures forall b <- bs :: ValidLabel(b.typ)
    decreases |data|
  {
    match Decode(data)
    case Some((block, rest)) => [block] + Blocks(rest)
    case None => []
  }

  function EncodeAll(bs: seq<Block>): string
  {
    if bs == [] then "" else Encode(bs[0]) + EncodeAll(bs[1..])
  }

  lemma {:induction false} EncodeAllConcat(bs: seq<Block>, cs: seq<Block>)
    ensures EncodeAll(bs + cs) == EncodeAll(bs) + EncodeAll(cs)
  {
    if bs == [] {
      assert bs + cs == cs;
    } else {
      assert (bs + cs)[1..] == bs[1..] + cs;
      EncodeAllConcat(bs[1..], cs);
    }
  }

  lemma EncodeOne(b: Block)
    ensures EncodeAll([b]) == Encode(b) && EncodeAll([]) == ""
  {
    assert [b][1..] == [];
    assert Encode(b) + "" == Encode(b);
  }

  lemma EncodeAllSnoc(bs: seq<Block>, i: nat)
    requires 1 <= i < |bs|
    ensures EncodeAll(bs[1..i + 1]) == EncodeAll(bs[1..i]) + Encode(bs[i])
  {
    assert bs[1..i + 1] == bs[1..i] + [bs[i]];
    EncodeAllConcat(bs[1..i], [bs[i]]);
    assert EncodeAll([bs[i]]) == Encode(bs[i]) + "";
  }

  /** Decoding the concatenated encodings of any valid blocks gives those blocks in order. */
  lemma {:induction false} BlocksEncodeAll(bs: seq<Block>)
    requires forall b <- bs :: ValidLabel(b.typ)
    ensures Blocks(EncodeAll(bs)) == bs
  {
    if bs == [] {
    } else {
      BlocksEncodeAll(bs[1..]);
      DecodeEncode(bs[0], EncodeAll(bs[1..]));
    }
  }

  /** The text of an encoded block. */
  lemma EncodeText(b: Block)
    ensures Encode(b) == "-----BEGIN " + b.typ + "-----" + "\n" + Wrapped(Base64.Encode(b.bytes))
                         + "-----END " + b.typ + "-----" + "\n"
  {
  }

  /** Every line of the body has 64 symbols, the last one what is left. */
  lemma {:induction false} WrappedAt(s: string, i: nat)
    requires i < |s|
    ensures |Wrapped(s)| == |s| + (|s| + 63) / 64
    ensures Wrapped(s)[i + i / 64] == s[i]
    ensures i % 64 == 63 || i == |s| - 1 ==> Wrapped(s)[i + i / 64 + 1] == '\n'
    decreases |s|
  {
    if 64 < |s| {
      var more := s[64..];
      assert Wrapped(s) == s[..64] + "\n" + Wrapped(more);
      WrappedAt(more, if i < 64 then 0 else i - 64);
      assert 64 <= i ==> i / 64 == (i - 64) / 64 + 1;
    }
  }

  /** The filter of the body drops blanks and line breaks and keeps everything else. */
  lemma {:induction false} StripConcat(a: string, b: string)
    ensures Strip(a + b) == Strip(a) + Strip(b)
  {
    if a == "" {
      assert a + b == b;
    } else {
      assert (a + b)[1..] == a[1..] + b;
      StripConcat(a[1..], b);
    }
  }

  lemma StripChar(c: char)
    ensures Strip([c]) == if c == ' ' || c == '\t' || c == '\r' || c == '\n' then "" else [c]
  {
    assert [c][1..] == "";
  }

  /** A line with no marker: it neither starts with an END marker nor holds a BEGIN marker. */
  predicate Plain(line: string)
  {
    && '\n' !in line && !HasPrefix(line, "-----END ")
    && forall i :: 0 <= i <= |line| ==> !HasPrefix(line[i..], "-----BEGIN ")
  }

  predicate AllPlain(ls: seq<string>)
  {
    forall l <- ls :: Plain(l)
  }

  function Lines(ls: seq<string>): string
  {
    if ls == [] then "" else ls[0] + "\n" + Lines(ls[1..])
  }

  /** The text of some lines without their breaks. */
  function Joined(ls: seq<string>): string
  {
    if ls == [] then "" else ls[0] + Joined(ls[1..])
  }

  /** A line without a marker is skipped outside a block and belongs to the body inside. */
  lemma {:induction false} ScanPlain(line: string, t: string, open: Option<Opened>)
    requires Plain(line) && (open.Some? ==> ValidLabel(open.value.typ))
    ensures Scan(line + "\n" + t, open)
         == Scan(t, if open.Some? then Some(Opened(open.value.typ, open.value.body + line)) else None)
  {
    var data := line + "\n" + t;
    LineEndOf(line, t);
    assert data[..|line|] == line;
    assert data[|line| + 1..] == t;
    assert line[0..] == line;
    assert !Spoiled(line);
  }

  /** Text outside blocks is skipped line by line. */
  lemma {:induction false} DecodeSkips(line: string, t: string)
    requires Plain(line)
    ensures Decode(line + "\n" + t) == Decode(t)
  {
    ScanPlain(line, t, None);
  }

  lemma {:induction false} ScanLines(ls: seq<string>, t: string, open: Opened)
    requires AllPlain(ls) && ValidLabel(open.typ)
    ensures Scan(Lines(ls) + t, Some(open)) == Scan(t, Some(Opened(open.typ, open.body + Joined(ls))))
    decreases |ls|
  {
    hide Scan;
    hide Plain;
    hide ValidLabel;
    if ls == [] {
      assert Lines(ls) + t == t && open.body + Joined(ls) == open.body;
    } else {
      var next := Opened(open.typ, open.body + ls[0]);
      assert Lines(ls) + t == ls[0] + "\n" + (Lines(ls[1..]) + t);
      ScanPlain(ls[0], Lines(ls[1..]) + t, Some(open));
      ScanLines(ls[1..], t, next);
      assert next.body + Joined(ls[1..]) == open.body + Joined(ls);
    }
  }

  lemma {:induction false} SkipLines(ls: seq<string>, t: string)
    requires AllPlain(ls)
    ensures Decode(Lines(ls) + t) == Decode(t)
    decreases |ls|
  {
    hide Decode;
    hide Plain;
    if ls == [] {
      assert Lines(ls) + t == t;
    } else {
      assert Lines(ls) + t == ls[0] + "\n" + (Lines(ls[1..]) + t);
      DecodeSkips(ls[0], Lines(ls[1..]) + t);
      SkipLines(ls[1..], t);
    }
  }

  /** Blanks and a carriage return after a BEGIN line make no marker of it. */
  lemma NotSpoiledByEnding(typ: string, e: string)
    requires ValidLabel(typ) && Ending(e)
    ensures !Spoiled(BeginLine(typ) + e)
  {
    var line, raw := BeginLine(typ), BeginLine(typ) + e;
    forall i | 0 < i <= |raw|
      ensures !HasPrefix(raw[i..], BEGIN)
    {
      MarkerInLine(line, e, i);
    }
  }

  lemma CatIndex(a: string, b: string, k: nat)
    requires k < |a + b|
    ensures (a + b)[k] == if k < |a| then a[k] else b[k - |a|]
  {
  }

  lemma MarkerInLine(line: string, e: string, i: nat)
    requires line != "" && line[|line| - 1] == '-' && Ending(e) && i <= |line + e|
    ensures HasPrefix((line + e)[i..], BEGIN) ==> i <= |line| && HasPrefix(line[i..], BEGIN)
  {
    var raw := line + e;
    if HasPrefix(raw[i..], BEGIN) {
      assert BEGIN[0] == '-' && BEGIN[9] == 'N';
      assert raw[i] == raw[i..][..|BEGIN|][0] && raw[i + 9] == raw[i..][..|BEGIN|][9];
      CatIndex(line, e, i);
      CatIndex(line, e, i + 9);
      assert line[i..][..|BEGIN|] == raw[i..][..|BEGIN|];
    }
  }

  /** A proper BEGIN line opens its block, whatever was open before. */
  lemma {:induction false} ScanBegin(typ: string, e: string, t: string, open: Option<Opened>)
    requires ValidLabel(typ) && Ending(e) && (open.Some? ==> ValidLabel(open.value.typ))
    ensures Scan(BeginLine(typ) + e + "\n" + t, open) == Scan(t, Some(Opened(typ, "")))
  {
    hide FirstLine;
    hide AfterLine;
    hide LineEnd;
    hide Close;
    var line, raw := BeginLine(typ), BeginLine(typ) + e;
    LineWithEnding(line, e, t);
    NotSpoiledByEnding(typ, e);
    assert raw[..|BEGIN|] == BEGIN;
    assert raw[..|END|][5] == 'B';
    OpenLine(typ, raw);
  }

  lemma OpenLine(typ: string, raw: string)
    requires ValidLabel(typ) && BeginLine(typ) <= raw && '\n' !in raw && !Spoiled(raw)
    ensures Open(raw, BeginLine(typ)) == Some(Opened(typ, ""))
  {
    hide Spoiled;
    var line := BeginLine(typ);
    assert line[..|BEGIN|] == BEGIN;
    assert line[|BEGIN|..] == typ + DASHES;
    assert line[|BEGIN|..][|typ|..] == DASHES;
    assert line[|BEGIN|..|line| - |DASHES|] == typ;
  }

  /** An END line with the label of the open block closes it, and the block counts if its body decodes. */
  lemma {:induction false} ScanEnd(typ: string, body: string, e: string, t: string)
    requires ValidLabel(typ) && Ending(e)
    ensures Scan(EndLine(typ) + e + "\n" + t, Some(Opened(typ, body)))
         == match Base64.Decode(Strip(body))
            case Some(bytes) => Some((Block(typ, bytes), t))
            case None => Decode(t)
  {
    hide FirstLine;
    hide AfterLine;
    hide LineEnd;
    var line, raw := EndLine(typ), EndLine(typ) + e;
    LineWithEnding(line, e, t);
    assert raw[..|END|] == END;
  }

  /** Without a line break at the end of the text, too. */
  lemma {:induction false} ScanEndOfText(typ: string, body: string)
    requires ValidLabel(typ)
    ensures Scan(EndLine(typ), Some(Opened(typ, body)))
         == match Base64.Decode(Strip(body))
            case Some(bytes) => Some((Block(typ, bytes), ""))
            case None => None
  {
    var line := EndLine(typ);
    NoLineEnd(line);
    assert line[..|line|] == line;
    assert line[..|END|] == END;
    TrimBlanks(line, "");
    assert line + "" == line;
    assert Scan("", None).None?;
  }

  /**
   * A block laid out in any lines: its bytes are those of the body without blanks and
   * line breaks, and a block whose body does not decode is skipped.
   */
  lemma {:induction false} DecodeBlock(typ: string, e: string, ls: seq<string>, e': string, t: string)
    requires ValidLabel(typ) && Ending(e) && Ending(e') && AllPlain(ls)
    ensures Decode("-----BEGIN " + typ + "-----" + e + "\n" + Lines(ls) + "-----END " + typ + "-----" + e' + "\n" + t)
         == match Base64.Decode(Strip(Joined(ls)))
            case Some(bytes) => Some((Block(typ, bytes), t))
            case None => Decode(t)
  {
    hide Scan;
    hide Plain;
    hide ValidLabel;
    hide Strip;
    var end := EndLine(typ) + e' + "\n" + t;
    assert "-----BEGIN " + typ + "-----" + e + "\n" + Lines(ls) + "-----END " + typ + "-----" + e' + "\n" + t
        == BeginLine(typ) + e + "\n" + (Lines(ls) + end);
    ScanBegin(typ, e, Lines(ls) + end, None);
    ScanLines(ls, end, Opened(typ, ""));
    assert "" + Joined(ls) == Joined(ls);
    ScanEnd(typ, Joined(ls), e', t);
  }

  /** The last BEGIN line before an END line counts: an earlier one with its body is skipped. */
  lemma {:induction false} LastBeginCounts(a: string, e: string, ls: seq<string>, b: string, e': string, t: string)
    requires ValidLabel(a) && ValidLabel(b) && Ending(e) && Ending(e') && AllPlain(ls)
    ensures Decode(BeginLine(a) + e + "\n" + (Lines(ls) + (BeginLine(b) + e' + "\n" + t)))
         == Decode(BeginLine(b) + e' + "\n" + t)
  {
    hide Scan;
    hide Plain;
    hide ValidLabel;
    var more := BeginLine(b) + e' + "\n" + t;
    ScanBegin(a, e, Lines(ls) + more, None);
    ScanLines(ls, more, Opened(a, ""));
    ScanBegin(b, e', t, Some(Opened(a, "" + Joined(ls))));
    ScanBegin(b, e', t, None);
  }

  /** An END line without an open block, or with another label, ends the search for a block there. */
  lemma {:induction false} ScanOtherEnd(other: string, e: string, t: string, open: Option<Opened>)
    requires '\n' !in other && Ending(e)
    requires open.Some? ==> ValidLabel(open.value.typ) && open.value.typ != other
    ensures Scan(EndLine(other) + e + "\n" + t, open) == Decode(t)
  {
    hide FirstLine;
    hide AfterLine;
    hide LineEnd;
    var line, raw := EndLine(other), EndLine(other) + e;
    LineWithEnding(line, e, t);
    assert raw[..|END|] == END;
    if open.Some? {
      OtherLabel(other, open.value.typ);
    }
  }

  lemma OtherLabel(a: string, b: string)
    requires a != b
    ensures EndLine(a) != EndLine(b)
  {
    LabelOf(a);
    LabelOf(b);
  }

  lemma LabelOf(a: string)
    ensures EndLine(a)[|END|..|EndLine(a)| - |DASHES|] == a
  {
  }

  /** A line without a carriage return at its end and the blanks before it. */
  function WithoutEnding(raw: string): string
  {
    TrimRight(if raw != "" && raw[|raw| - 1] == '\r' then raw[..|raw| - 1] else raw)
  }

  /** A line with a BEGIN marker that is not a proper BEGIN line discards what is open. */
  lemma {:induction false} ScanImproperBegin(raw: string, t: string, open: Option<Opened>)
    requires '\n' !in raw && !HasPrefix(raw, "-----END ") && (open.Some? ==> ValidLabel(open.value.typ))
    requires || (exists i :: 0 < i <= |raw| && HasPrefix(raw[i..], "-----BEGIN "))
             || (HasPrefix(raw, "-----BEGIN ") && !HasSuffix(WithoutEnding(raw), "-----"))
    ensures Scan(raw + "\n" + t, open) == Decode(t)
  {
    hide FirstLine;
    hide AfterLine;
    hide LineEnd;
    hide Close;
    hide Open;
    LineOf(raw, t);
    OpenImproper(raw);
    assert raw != "";
  }

  /** The parts of the first line, whatever stands on it. */
  lemma LineOf(raw: string, t: string)
    requires '\n' !in raw
    ensures var data := raw + "\n" + t;
            data[..LineEnd(data)] == raw && FirstLine(data) == WithoutEnding(raw) && AfterLine(data) == t
  {
    var data := raw + "\n" + t;
    LineEndOf(raw, t);
    assert data[..|raw|] == raw;
    assert data[|raw| + 1..] == t;
    assert raw != "" ==> data[..|raw| - 1] == raw[..|raw| - 1];
  }

  lemma OpenImproper(raw: string)
    requires '\n' !in raw
    requires || (exists i :: 0 < i <= |raw| && HasPrefix(raw[i..], BEGIN))
             || !HasSuffix(WithoutEnding(raw), DASHES)
    ensures Open(raw, WithoutEnding(raw)).None?
  {
    SuffixOfTail(WithoutEnding(raw));
  }

  lemma SuffixOfTail(line: string)
    ensures HasPrefix(line, BEGIN) && HasSuffix(line[|BEGIN|..], DASHES) ==> HasSuffix(line, DASHES)
  {
    if HasPrefix(line, BEGIN) && HasSuffix(line[|BEGIN|..], DASHES) {
      var tail := line[|BEGIN|..];
      assert line[|line| - |DASHES|..] == tail[|tail| - |DASHES|..];
    }
  }

  /** A block that is never closed is none. */
  lemma {:induction false} NeverClosed(typ: string, e: string, ls: seq<string>)
    requires ValidLabel(typ) && Ending(e) && AllPlain(ls)
    ensures Decode(BeginLine(typ) + e + "\n" + Lines(ls)) == None
  {
    ScanBegin(typ, e, Lines(ls), None);
    assert Lines(ls) + "" == Lines(ls);
    ScanLines(ls, "", Opened(typ, ""));
    assert Scan("", Some(Opened(typ, "" + Joined(ls)))).None?;
  }

  /** Encoded blocks with lines before, between and after them. */
  function Spread(gaps: seq<seq<string>>, bs: seq<Block>): string
    requires |gaps| == |bs| + 1
  {
    if bs == [] then Lines(gaps[0]) else Lines(gaps[0]) + (Encode(bs[0]) + Spread(gaps[1..], bs[1..]))
  }

  /** Blocks are found in order among any lines without markers. */
  lemma {:induction false} BlocksSpread(gaps: seq<seq<string>>, bs: seq<Block>)
    requires |gaps| == |bs| + 1 && forall g <- gaps :: AllPlain(g)
    requires forall b <- bs :: ValidLabel(b.typ)
    ensures Blocks(Spread(gaps, bs)) == bs
    decreases |bs|
  {
    hide Decode;
    hide Encode;
    hide AllPlain;
    hide ValidLabel;
    if bs == [] {
      assert Lines(gaps[0]) + "" == Lines(gaps[0]);
      SkipLines(gaps[0], "");
      DecodeEmpty();
    } else {
      var rest := Spread(gaps[1..], bs[1..]);
      SkipLines(gaps[0], Encode(bs[0]) + rest);
      DecodeEncode(bs[0], rest);
      BlocksSpread(gaps[1..], bs[1..]);
    }
  }

  lemma DecodeEmpty()
    ensures Decode("") == None
  {
  }
}
