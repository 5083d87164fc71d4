/**
 * The certificate store: four files an alias, two of them cut from the full
 * chain.  The disk is a map from paths to contents, one character a byte.
 */
module Storage {
  import opened Wrappers
  import Base64
  import Pem

  datatype FileName = CertPem | ChainPem | FullchainPem | PrivkeyPem

  datatype Path = Path(alias: string, name: FileName)

  type Files = map<Path, string>

  /** The expiry in a DER certificate, or None when it is not one (X.509 parsing). */
  type DerParser = seq<Base64.Octet> -> Option<int>

  function Lookup(files: Files, p: Path): Option<string>
  {
    if p in files then Some(files[p]) else None
  }

  /** The expiry of the first PEM block of a text. */
  function FirstExpiry(der: DerParser, data: string): Option<int>
  {
    match Pem.Decode(data)
    case Some((block, _)) => der(block.bytes)
    case None => None
  }

  /** `GetLocalCertExpiry`: None stands for each of its errors. */
  function LocalExpiry(der: DerParser, files: Files, alias: string): Option<int>
  {
    var p := Path(alias, FullchainPem);
    if p in files then FirstExpiry(der, files[p]) else None
  }

  /** The first of all the blocks of a text decides. */
  lemma {:induction false} FirstExpiryMeans(der: DerParser, data: string)
    ensures var blocks := Pem.Blocks(data);
            FirstExpiry(der, data) == if blocks == [] then None else der(blocks[0].bytes)
  {
    hide Pem.Decode;
  }

  /** The leaf part of a full chain. */
  function CertOf(fullchain: string): string
  {
    var blocks := Pem.Blocks(fullchain);
    if blocks == [] then "" else Pem.Encode(blocks[0])
  }

  /** The intermediate part of a full chain. */
  function ChainOf(fullchain: string): string
  {
    var blocks := Pem.Blocks(fullchain);
    if blocks == [] then "" else Pem.EncodeAll(blocks[1..])
  }

  /** Every block of a text in order, re-encoded: the text without what surrounds its blocks. */
  function Canonical(data: string): string
  {
    Pem.EncodeAll(Pem.Blocks(data))
  }

  /** The chain is cut after its first block: what each part holds, as blocks and as text. */
  lemma {:induction false} PartsAre(fullchain: string)
    ensures var blocks := Pem.Blocks(fullchain);
            && Pem.Blocks(CertOf(fullchain)) == (if blocks == [] then [] else [blocks[0]])
            && Pem.Blocks(ChainOf(fullchain)) == (if blocks == [] then [] else blocks[1..])
            && CertOf(fullchain) == Pem.EncodeAll(if blocks == [] then [] else [blocks[0]])
            && ChainOf(fullchain) == Pem.EncodeAll(if blocks == [] then [] else blocks[1..])
  {
    hide Pem.Blocks;
    hide Pem.Encode;
    hide Pem.EncodeAll;
    var blocks := Pem.Blocks(fullchain);
    Pem.BlocksEncodeAll(if blocks == [] then [] else [blocks[0]]);
    Pem.BlocksEncodeAll(if blocks == [] then [] else blocks[1..]);
    if blocks != [] {
      Pem.EncodeOne(blocks[0]);
    } else {
      Pem.EncodeOne(Pem.Block("", []));
    }
  }

  method ExtractCert(fullchain: string) returns (cert: string)
    ensures cert == CertOf(fullchain)
    ensures Pem.Blocks(cert) == if Pem.Blocks(fullchain) == [] then [] else [Pem.Blocks(fullchain)[0]]
  {
    PartsAre(fullchain);
    match Pem.Decode(fullchain)
    case None =>
      cert := "";
    case Some((block, _)) =>
      cert := Pem.Encode(block);
  }

  /** The decoding loop of `extractChain`: every block of the text, re-encoded. */
  method CollectBlocks(fullchain: string) returns (blocks: seq<string>)
    ensures blocks == Encodings(fullchain)
  {
    blocks := [];
    var remaining := fullchain;
    var next := Pem.Decode(remaining);
    while next.Some?
      invariant next == Pem.Decode(remaining)
      invariant Encodings(fullchain) == blocks + Encodings(remaining)
      decreases |remaining|
    {
      EncodingsStep(remaining);
      blocks := blocks + [Pem.Encode(next.value.0)];
      remaining := next.value.1;
      next := Pem.Decode(remaining);
    }
    EncodingsStep(remaining);
  }

  /** The joining loop of `extractChain`: all the blocks but the first. */
  method JoinRest(blocks: seq<string>, ghost found: seq<Pem.Block>) returns (chain: string)
    requires |blocks| == |found| && forall i :: 0 <= i < |found| ==> blocks[i] == Pem.Encode(found[i])
    ensures chain == if found == [] then "" else Pem.EncodeAll(found[1..])
  {
    chain := "";
    var i := 1;
    while i < |blocks|
      invariant 1 <= i && (blocks == [] || i <= |blocks|)
      invariant chain == if blocks == [] then "" else Pem.EncodeAll(found[1..i])
    {
      Pem.EncodeAllSnoc(found, i);
      chain := chain + blocks[i];
      i := i + 1;
    }
    assert blocks != [] ==> found[1..i] == found[1..];
  }

  method ExtractChain(fullchain: string) returns (chain: string)
    ensures chain == ChainOf(fullchain)
    ensures Pem.Blocks(chain) == if Pem.Blocks(fullchain) == [] then [] else Pem.Blocks(fullchain)[1..]
  {
    PartsAre(fullchain);
    var blocks := CollectBlocks(fullchain);
    chain := JoinRest(blocks, Pem.Blocks(fullchain));
  }

  function Encodings(data: string): (r: seq<string>)
    ensures |r| == |Pem.Blocks(data)|
    ensures forall i :: 0 <= i < |r| ==> r[i] == Pem.Encode(Pem.Blocks(data)[i])
  {
    var blocks := Pem.Blocks(data);
    seq(|blocks|, i requires 0 <= i < |blocks| => Pem.Encode(blocks[i]))
  }

  lemma EncodingsStep(data: string)
    ensures var next := Pem.Decode(data);
            Encodings(data) == if next.Some? then [Pem.Encode(next.value.0)] + Encodings(next.value.1) else []
  {
  }

  /** Splitting loses and reorders nothing. */
  lemma SplitComplete(fullchain: string)
    ensures CertOf(fullchain) + ChainOf(fullchain) == Canonical(fullchain)
  {
  }

  /** Splitting the canonical text again gives the same two parts. */
  lemma {:induction false} SplitAgain(fullchain: string)
    ensures Pem.Blocks(Canonical(fullchain)) == Pem.Blocks(fullchain)
    ensures CertOf(Canonical(fullchain)) == CertOf(fullchain)
    ensures ChainOf(Canonical(fullchain)) == ChainOf(fullchain)
    ensures Canonical(Canonical(fullchain)) == Canonical(fullchain)
  {
    Pem.BlocksEncodeAll(Pem.Blocks(fullchain));
  }

  /** The leaf file and the canonical chain tell the same expiry as the full chain. */
  lemma SplitKeepsExpiry(der: DerParser, fullchain: string)
    ensures FirstExpiry(der, CertOf(fullchain)) == FirstExpiry(der, fullchain)
    ensures FirstExpiry(der, Canonical(fullchain)) == FirstExpiry(der, fullchain)
  {
    SplitAgain(fullchain);
    var blocks := Pem.Blocks(fullchain);
    if blocks != [] {
      Pem.DecodeEncode(blocks[0], "");
      assert Pem.Encode(blocks[0]) + "" == Pem.Encode(blocks[0]);
      Pem.DecodeEncode(blocks[0], Pem.EncodeAll(blocks[1..]));
    }
  }

  /** Which part is non-empty depends on the number of blocks alone. */
  lemma {:induction false} PartsByBlockCount(fullchain: string)
    ensures CertOf(fullchain) != "" <==> |Pem.Blocks(fullchain)| >= 1
    ensures ChainOf(fullchain) != "" <==> |Pem.Blocks(fullchain)| >= 2
  {
    var blocks := Pem.Blocks(fullchain);
    if |blocks| >= 2 {
      assert Pem.EncodeAll(blocks[1..]) == Pem.Encode(blocks[1]) + Pem.EncodeAll(blocks[1..][1..]);
    }
  }

  /** One call of `SaveCert` with its inputs. */
  datatype Save = Save(alias: string, fullchain: string, privkey: string)

  /** What a save writes to one of the files. */
  function Content(s: Save, name: FileName): string
  {
    match name
    case CertPem => CertOf(s.fullchain)
    case ChainPem => ChainOf(s.fullchain)
    case FullchainPem => s.fullchain
    case PrivkeyPem => s.privkey
  }

  /** The file is written only when the full chain has this many blocks. */
  function BlocksNeeded(name: FileName): nat
  {
    match name
    case CertPem => 1
    case ChainPem => 2
    case FullchainPem => 0
    case PrivkeyPem => 0
  }

  /** The writes of one save, in order. */
  function Writes(s: Save): seq<FileName>
  {
    [FullchainPem, PrivkeyPem]
    + (if CertOf(s.fullchain) != "" then [CertPem] else [])
    + (if ChainOf(s.fullchain) != "" then [ChainPem] else [])
  }

  function Write(files: Files, s: Save, names: seq<FileName>): Files
    decreases |names|
  {
    if names == [] then files
    else
      var last := names[|names| - 1];
      Write(files, s, names[..|names| - 1])[Path(s.alias, last) := Content(s, last)]
  }

  /** The store after a save that meets no error. */
  function Saved(files: Files, s: Save): Files
  {
    Write(files, s, Writes(s))
  }

  /** The errors of the disk: no directory, or one write failing and leaving the file in some state. */
  datatype Fault = NoFault | NoDirectory | FailedWrite(index: nat, left: Option<string>)

  predicate Hits(fault: Fault, s: Save)
  {
    fault.NoDirectory? || (fault.FailedWrite? && fault.index < |Writes(s)|)
  }

  /** The store after a save, its writes stopping at the first error. */
  function SavedWith(files: Files, s: Save, fault: Fault): Files
  {
    match fault
    case NoFault => Saved(files, s)
    case NoDirectory => files
    case FailedWrite(i, left) =>
      if i < |Writes(s)| then
        var before := Write(files, s, Writes(s)[..i]);
        if left.Some? then before[Path(s.alias, Writes(s)[i]) := left.value] else before
      else Saved(files, s)
  }

  lemma {:induction false} WriteLookup(files: Files, s: Save, names: seq<FileName>, p: Path)
    ensures Lookup(Write(files, s, names), p)
         == if p.alias == s.alias && p.name in names then Some(Content(s, p.name)) else Lookup(files, p)
    decreases |names|
  {
    if names != [] {
      WriteLookup(files, s, names[..|names| - 1], p);
      assert names == names[..|names| - 1] + [names[|names| - 1]];
    }
  }

  /** A file is written exactly when the full chain has the blocks it needs. */
  predicate Rewrites(s: Save, alias: string, name: FileName)
  {
    s.alias == alias && BlocksNeeded(name) <= |Pem.Blocks(s.fullchain)|
  }

  lemma WrittenNames(s: Save, name: FileName)
    ensures name in Writes(s) <==> Rewrites(s, s.alias, name)
  {
    PartsByBlockCount(s.fullchain);
    var c := if CertOf(s.fullchain) != "" then [CertPem] else [];
    var d := if ChainOf(s.fullchain) != "" then [ChainPem] else [];
    assert Writes(s) == [FullchainPem, PrivkeyPem] + c + d;
    assert name in Writes(s) <==> name == FullchainPem || name == PrivkeyPem || name in c || name in d;
  }

  /** What one save does to any one file of any alias. */
  lemma SavedLookup(files: Files, s: Save, p: Path)
    ensures Lookup(Saved(files, s), p)
         == if Rewrites(s, p.alias, p.name) then Some(Content(s, p.name)) else Lookup(files, p)
  {
    WrittenNames(s, p.name);
    WriteLookup(files, s, Writes(s), p);
  }

  /** A failing save may tear the alias's own files, never another alias's. */
  lemma SavedWithFrame(files: Files, s: Save, fault: Fault, p: Path)
    requires p.alias != s.alias
    ensures Lookup(SavedWith(files, s, fault), p) == Lookup(files, p)
  {
    WriteLookup(files, s, Writes(s), p);
    if fault.FailedWrite? && fault.index < |Writes(s)| {
      WriteLookup(files, s, Writes(s)[..fault.index], p);
    }
  }

  /** A file holds a text whose blocks are these, and nothing between them. */
  predicate Holds(files: Files, p: Path, blocks: seq<Pem.Block>)
  {
    Lookup(files, p) == Some(Pem.EncodeAll(blocks))
  }

  /**
   * The store after a save: the full chain and the key as they were given, the first
   * block in `cert.pem` if there is one, the others in `chain.pem` if there are any,
   * and every other file as before.
   */
  ghost predicate SavedAs(files: Files, alias: string, fullchain: string, privkey: string, files': Files)
  {
    var blocks := Pem.Blocks(fullchain);
    && Lookup(files', Path(alias, FullchainPem)) == Some(fullchain)
    && Lookup(files', Path(alias, PrivkeyPem)) == Some(privkey)
    && (if 1 <= |blocks| then Holds(files', Path(alias, CertPem), [blocks[0]])
        else Lookup(files', Path(alias, CertPem)) == Lookup(files, Path(alias, CertPem)))
    && (if 2 <= |blocks| then Holds(files', Path(alias, ChainPem), blocks[1..])
        else Lookup(files', Path(alias, ChainPem)) == Lookup(files, Path(alias, ChainPem)))
    && forall p: Path :: p.alias != alias ==> Lookup(files', p) == Lookup(files, p)
  }

  lemma SavedMeans(files: Files, s: Save)
    ensures SavedAs(files, s.alias, s.fullchain, s.privkey, Saved(files, s))
  {
    hide Saved;
    hide Pem.Blocks;
    hide Pem.EncodeAll;
    hide CertOf;
    hide ChainOf;
    PartsAre(s.fullchain);
    SavedLookup(files, s, Path(s.alias, FullchainPem));
    SavedLookup(files, s, Path(s.alias, PrivkeyPem));
    SavedLookup(files, s, Path(s.alias, CertPem));
    SavedLookup(files, s, Path(s.alias, ChainPem));
    forall p: Path | p.alias != s.alias
      ensures Lookup(Saved(files, s), p) == Lookup(files, p)
    {
      SavedLookup(files, s, p);
    }
  }

  /** The order in which a save writes its files. */
  function Turn(name: FileName): nat
  {
    match name
    case FullchainPem => 0
    case PrivkeyPem => 1
    case CertPem => 2
    case ChainPem => 3
  }

  /** A save writes two files, and one more for each part there is. */
  lemma WritesCount(s: Save)
    ensures var n := |Pem.Blocks(s.fullchain)|; |Writes(s)| == 2 + (if n < 2 then n else 2)
  {
    PartsByBlockCount(s.fullchain);
  }

  lemma TurnOf(s: Save, i: nat)
    requires i < |Writes(s)|
    ensures Turn(Writes(s)[i]) == i
  {
    PartsByBlockCount(s.fullchain);
  }

  /**
   * A save whose write `i` fails: the files before it in turn are written, that one is
   * left in some state, and those after it are as before.
   */
  lemma TornMeans(files: Files, s: Save, i: nat, left: Option<string>, name: FileName)
    requires i < |Writes(s)|
    ensures Lookup(SavedWith(files, s, FailedWrite(i, left)), Path(s.alias, name))
         == if Rewrites(s, s.alias, name) && Turn(name) < i then Some(Content(s, name))
            else if Turn(name) == i && left.Some? then left
            else Lookup(files, Path(s.alias, name))
  {
    hide Content;
    WrittenNames(s, name);
    WriteLookup(files, s, Writes(s)[..i], Path(s.alias, name));
    TurnOf(s, i);
    forall k | 0 <= k < |Writes(s)|
      ensures Turn(Writes(s)[k]) == k
    {
      TurnOf(s, k);
    }
    TurnIn(s, i, name);
  }

  lemma TurnIn(s: Save, i: nat, name: FileName)
    requires i < |Writes(s)|
    ensures name in Writes(s)[..i] <==> name in Writes(s) && Turn(name) < i
    ensures name == Writes(s)[i] <==> Turn(name) == i
  {
    forall k | 0 <= k < |Writes(s)|
      ensures Turn(Writes(s)[k]) == k
    {
      TurnOf(s, k);
    }
    if name in Writes(s) {
      var k :| 0 <= k < |Writes(s)| && Writes(s)[k] == name;
      if k < i {
        assert Writes(s)[..i][k] == name;
      }
    }
    TurnOf(s, i);
    TurnsDiffer(name, Writes(s)[i]);
  }

  lemma TurnsDiffer(a: FileName, b: FileName)
    ensures Turn(a) == Turn(b) <==> a == b
  {
  }

  function Replay(files: Files, saves: seq<Save>): Files
  {
    if saves == [] then files else Saved(Replay(files, saves[..|saves| - 1]), saves[|saves| - 1])
  }

  lemma {:induction false} ReplaySnoc(files: Files, saves: seq<Save>, s: Save)
    ensures Replay(files, saves + [s]) == Saved(Replay(files, saves), s)
  {
    assert (saves + [s])[..|saves|] == saves && (saves + [s])[|saves|] == s;
  }

  /** The last save with a property; -1 when there is none. */
  function LastWith(saves: seq<Save>, property: Save -> bool): (i: int)
    ensures -1 <= i < |saves|
    ensures 0 <= i ==> property(saves[i])
    ensures forall j :: i < j < |saves| ==> !property(saves[j])
  {
    if saves == [] then -1
    else if property(saves[|saves| - 1]) then |saves| - 1
    else
      var i := LastWith(saves[..|saves| - 1], property);
      assert forall j :: 0 <= j < |saves| - 1 ==> saves[..|saves| - 1][j] == saves[j];
      i
  }

  /** The last save that writes a file of an alias. */
  function LastSave(saves: seq<Save>, alias: string, name: FileName): (i: int)
    ensures -1 <= i < |saves|
  {
    LastWith(saves, (s: Save) => Rewrites(s, alias, name))
  }

  /**
   * Where a file comes from after some saves: its part of the last save of its alias
   * that had blocks enough to write it, or what it held before.
   */
  function Origin(files: Files, saves: seq<Save>, p: Path): Option<string>
  {
    var i := LastSave(saves, p.alias, p.name);
    if i < 0 then Lookup(files, p) else Some(Content(saves[i], p.name))
  }

  /** After any sequence of successful saves, every file is what its origin says. */
  lemma {:induction false} ReplayLookup(files: Files, saves: seq<Save>, p: Path)
    ensures Lookup(Replay(files, saves), p) == Origin(files, saves, p)
    decreases |saves|
  {
    if saves != [] {
      var n := |saves| - 1;
      ReplayLookup(files, saves[..n], p);
      SavedLookup(Replay(files, saves[..n]), saves[n], p);
    }
  }

  /** A last save with blocks enough for every file wrote every file. */
  lemma {:induction false} SameLastSave(saves: seq<Save>, alias: string, name: FileName)
    requires var i := LastSave(saves, alias, FullchainPem); 0 <= i && Rewrites(saves[i], alias, ChainPem)
    ensures LastSave(saves, alias, name) == LastSave(saves, alias, FullchainPem)
  {
    hide Pem.Blocks;
    var n := |saves| - 1;
    if !Rewrites(saves[n], alias, FullchainPem) {
      assert !Rewrites(saves[n], alias, name);
      SameLastSave(saves[..n], alias, name);
    }
  }

  function TextOf(files: Files, p: Path): string
  {
    if p in files then files[p] else ""
  }

  /** `cert.pem` followed by `chain.pem` is exactly the blocks of `fullchain.pem`. */
  predicate PartsMatch(files: Files, alias: string)
  {
    TextOf(files, Path(alias, CertPem)) + TextOf(files, Path(alias, ChainPem))
    == Canonical(TextOf(files, Path(alias, FullchainPem)))
  }

  /**
   * A save leaves the parts matching if and only if it wrote both of them, or the
   * files it did not write were absent or empty.
   */
  lemma PartsMatchAfterSave(files: Files, s: Save)
    ensures PartsMatch(Saved(files, s), s.alias)
       <==> var n := |Pem.Blocks(s.fullchain)|;
            && (n < 2 ==> TextOf(files, Path(s.alias, ChainPem)) == "")
            && (n < 1 ==> TextOf(files, Path(s.alias, CertPem)) == "")
  {
    var cert, chain := Path(s.alias, CertPem), Path(s.alias, ChainPem);
    SavedLookup(files, s, cert);
    SavedLookup(files, s, chain);
    SavedLookup(files, s, Path(s.alias, FullchainPem));
    SplitComplete(s.fullchain);
    PartsByBlockCount(s.fullchain);
    var n := |Pem.Blocks(s.fullchain)|;
    ConcatCancels(TextOf(Saved(files, s), cert), TextOf(Saved(files, s), chain),
                  CertOf(s.fullchain), ChainOf(s.fullchain));
    assert n >= 1 ==> TextOf(Saved(files, s), cert) == CertOf(s.fullchain);
    assert n < 1 ==> TextOf(Saved(files, s), cert) == TextOf(files, cert);
    assert n >= 2 ==> TextOf(Saved(files, s), chain) == ChainOf(s.fullchain);
    assert n < 2 ==> TextOf(Saved(files, s), chain) == TextOf(files, chain);
  }

  lemma ConcatCancels(a: string, b: string, c: string, d: string)
    ensures a == c ==> (a + b == c + d <==> b == d)
    ensures c == "" && d == "" ==> (a + b == c + d <==> a == "" && b == "")
  {
    if a == c && a + b == c + d {
      assert b == (a + b)[|a|..] == (c + d)[|a|..] == d;
    }
    assert |a + b| == |a| + |b|;
  }

  /** The store on disk. */
  class CertStorage {
    var files: Files

    constructor (files: Files)
      ensures this.files == files
    {
      this.files := files;
    }

    predicate CertExists(alias: string)
      reads this
    {
      Path(alias, FullchainPem) in files
    }

    method WriteFile(p: Path, content: string, index: nat, fault: Fault) returns (ok: bool)
      modifies this
      ensures ok <==> fault.FailedWrite? ==> fault.index != index
      ensures ok ==> files == old(files)[p := content]
      ensures !ok ==> files == if fault.left.Some? then old(files)[p := fault.left.value] else old(files)
    {
      if fault.FailedWrite? && fault.index == index {
        if fault.left.Some? {
          files := files[p := fault.left.value];
        }
        return false;
      }
      files := files[p := content];
      return true;
    }

    /** Writes the full chain, the key, then each non-empty part; the first error ends the call. */
    method SaveCert(alias: string, fullchain: string, privkey: string, fault: Fault) returns (ok: bool)
      modifies this
      ensures files == SavedWith(old(files), Save(alias, fullchain, privkey), fault)
      ensures ok <==> !Hits(fault, Save(alias, fullchain, privkey))
      ensures ok ==> SavedAs(old(files), alias, fullchain, privkey, files)
      ensures fault.NoFault? ==> ok
    {
      hide SavedAs;
      hide Pem.Blocks;
      hide Pem.Encode;
      hide Pem.EncodeAll;
      SavedMeans(files, Save(alias, fullchain, privkey));
      hide CertOf;
      hide ChainOf;
      ghost var s := Save(alias, fullchain, privkey);
      ghost var before := files;
      if fault.NoDirectory? {
        return false;
      }
      ok := WriteFile(Path(alias, FullchainPem), fullchain, 0, fault);
      if !ok {
        assert Writes(s)[..0] == [];
        return;
      }
      assert Writes(s)[..1] == [FullchainPem];
      assert [FullchainPem][..0] == [];
      ok := WriteFile(Path(alias, PrivkeyPem), privkey, 1, fault);
      if !ok {
        return;
      }
      assert Writes(s)[..2] == [FullchainPem, PrivkeyPem];
      assert files == Write(before, s, [FullchainPem, PrivkeyPem]) by {
        assert [FullchainPem, PrivkeyPem][..1] == [FullchainPem];
      }
      var index := 2;
      var cert := ExtractCert(fullchain);
      if |cert| > 0 {
        ok := WriteFile(Path(alias, CertPem), cert, index, fault);
        if !ok {
          return;
        }
        index := 3;
        assert Writes(s)[..3] == [FullchainPem, PrivkeyPem, CertPem];
        assert [FullchainPem, PrivkeyPem, CertPem][..2] == [FullchainPem, PrivkeyPem];
      }
      assert files == Write(before, s, Writes(s)[..index]);
      var chain := ExtractChain(fullchain);
      if |chain| > 0 {
        ok := WriteFile(Path(alias, ChainPem), chain, index, fault);
        if !ok {
          return;
        }
        assert Writes(s)[..|Writes(s)| - 1] == Writes(s)[..index];
      } else {
        assert Writes(s)[..index] == Writes(s);
      }
    }

    /** `GetLocalCertExpiry` */
    method GetLocalCertExpiry(alias: string, der: DerParser) returns (expiry: Option<int>)
      ensures expiry == LocalExpiry(der, files, alias)
      ensures Path(alias, FullchainPem) !in files ==> expiry == None
      ensures Path(alias, FullchainPem) in files ==>
                var blocks := Pem.Blocks(files[Path(alias, FullchainPem)]);
                expiry == if blocks == [] then None else der(blocks[0].bytes)
    {
      hide Pem.Decode;
      var p := Path(alias, FullchainPem);
      if p !in files {
        return None;
      }
      match Pem.Decode(files[p])
      case None =>
        return None;
      case Some((block, _)) =>
        return der(block.bytes);
    }
  }
}
