/**
 * The bundle a client downloads: packing the certificate files, unpacking them
 * into a directory and copying that directory over the destination.  An archive
 * is the ordered list of its entries.
 */
module Bundle {
  import opened Wrappers
  import opened Text
  import opened Storage

  datatype CertFiles = CertFiles(cert: string, chain: string, fullchain: string, privkey: string)

  datatype Entry = Entry(name: string, content: string)

  type Archive = seq<Entry>

  /** The regular files of one directory. */
  type Listing = map<string, string>

  function DiskName(name: FileName): string
  {
    match name
    case CertPem => "cert.pem"
    case ChainPem => "chain.pem"
    case FullchainPem => "fullchain.pem"
    case PrivkeyPem => "privkey.pem"
  }

  function FileOf(f: CertFiles, name: FileName): string
  {
    match name
    case CertPem => f.cert
    case ChainPem => f.chain
    case FullchainPem => f.fullchain
    case PrivkeyPem => f.privkey
  }

  /** A file's entry; an empty file has none. */
  function EntryOf(f: CertFiles, name: FileName): Archive
  {
    if FileOf(f, name) == "" then [] else [Entry(DiskName(name), FileOf(f, name))]
  }

  function Packed(f: CertFiles, names: seq<FileName>): Archive
  {
    if names == [] then [] else EntryOf(f, names[0]) + Packed(f, names[1..])
  }

  /** The archive of the non-empty files. */
  function Pack(f: CertFiles): Archive
  {
    Packed(f, [CertPem, ChainPem, FullchainPem, PrivkeyPem])
  }

  method CreateCertZip(f: CertFiles) returns (zip: Archive)
    ensures zip == Pack(f)
    ensures zip == (if f.cert == "" then [] else [Entry("cert.pem", f.cert)])
                   + (if f.chain == "" then [] else [Entry("chain.pem", f.chain)])
                   + (if f.fullchain == "" then [] else [Entry("fullchain.pem", f.fullchain)])
                   + (if f.privkey == "" then [] else [Entry("privkey.pem", f.privkey)])
  {
    PackNames(f);
    zip := [];
    if |f.cert| > 0 {
      zip := zip + [Entry("cert.pem", f.cert)];
    }
    assert zip == EntryOf(f, CertPem);
    if |f.chain| > 0 {
      zip := zip + [Entry("chain.pem", f.chain)];
    }
    assert zip == EntryOf(f, CertPem) + EntryOf(f, ChainPem);
    if |f.fullchain| > 0 {
      zip := zip + [Entry("fullchain.pem", f.fullchain)];
    }
    assert zip == EntryOf(f, CertPem) + EntryOf(f, ChainPem) + EntryOf(f, FullchainPem);
    if |f.privkey| > 0 {
      zip := zip + [Entry("privkey.pem", f.privkey)];
    }
    PackEntries(f);
  }

  /** The entries by their names in the archive. */
  lemma PackNames(f: CertFiles)
    ensures Pack(f) == (if f.cert == "" then [] else [Entry("cert.pem", f.cert)])
                       + (if f.chain == "" then [] else [Entry("chain.pem", f.chain)])
                       + (if f.fullchain == "" then [] else [Entry("fullchain.pem", f.fullchain)])
                       + (if f.privkey == "" then [] else [Entry("privkey.pem", f.privkey)])
  {
    PackEntries(f);
  }

  lemma PackEntries(f: CertFiles)
    ensures Pack(f) == EntryOf(f, CertPem) + EntryOf(f, ChainPem) + EntryOf(f, FullchainPem) + EntryOf(f, PrivkeyPem)
  {
    PackedStep(f, CertPem, [ChainPem, FullchainPem, PrivkeyPem]);
    PackedStep(f, ChainPem, [FullchainPem, PrivkeyPem]);
    PackedStep(f, FullchainPem, [PrivkeyPem]);
    PackedStep(f, PrivkeyPem, []);
  }

  lemma {:induction false} PackedStep(f: CertFiles, name: FileName, names: seq<FileName>)
    ensures Packed(f, [name] + names) == EntryOf(f, name) + Packed(f, names)
  {
    assert ([name] + names)[1..] == names;
  }

  /** A directory entry; it creates no file. */
  predicate IsDirectory(name: string)
  {
    HasSuffix(name, "/")
  }

  /** The files after unpacking an archive, later entries overwriting earlier ones. */
  function Unpack(files: Listing, zip: Archive): Listing
  {
    if zip == [] then files
    else
      var before := Unpack(files, zip[..|zip| - 1]);
      var e := zip[|zip| - 1];
      if IsDirectory(e.name) then before else before[e.name := e.content]
  }

  function Find(files: Listing, name: string): Option<string>
  {
    if name in files then Some(files[name]) else None
  }

  lemma {:induction false} UnpackConcat(files: Listing, a: Archive, b: Archive)
    ensures Unpack(files, a + b) == Unpack(Unpack(files, a), b)
  {
    if b == [] {
      assert a + b == a;
    } else {
      assert (a + b)[..|a + b| - 1] == a + b[..|b| - 1];
      UnpackConcat(files, a, b[..|b| - 1]);
    }
  }

  /** The last entry of a name that is no directory decides the file; without one it stays. */
  lemma {:induction false} UnpackLookup(files: Listing, zip: Archive, name: string, i: int)
    requires -1 <= i < |zip|
    requires i >= 0 ==> zip[i].name == name && (name == "" || name[|name| - 1] != '/')
    requires forall j :: i < j < |zip| ==> zip[j].name != name || (name != "" && name[|name| - 1] == '/')
    ensures Find(Unpack(files, zip), name) == if i >= 0 then Some(zip[i].content) else Find(files, name)
    decreases |zip|
  {
    if zip != [] {
      var n := |zip| - 1;
      DirectoryName(zip[n].name);
      if i < n {
        UnpackLookup(files, zip[..n], name, i);
      }
    }
  }

  lemma DirectoryName(name: string)
    ensures IsDirectory(name) <==> name != "" && name[|name| - 1] == '/'
  {
    if name != "" {
      assert name[|name| - 1..] == [name[|name| - 1]];
    }
  }

  /** Disk names are distinct, so a packed file comes back under its own name only. */
  lemma {:induction false} UnpackPacked(files: Listing, f: CertFiles, names: seq<FileName>, name: string)
    ensures Find(Unpack(files, Packed(f, names)), name)
         == if exists n <- names :: DiskName(n) == name && FileOf(f, n) != ""
            then Some(FileOf(f, NamedOf(name))) else Find(files, name)
    decreases |names|
  {
    if names != [] {
      var head := EntryOf(f, names[0]);
      PackedStep(f, names[0], names[1..]);
      assert names == [names[0]] + names[1..];
      UnpackConcat(files, head, Packed(f, names[1..]));
      UnpackPacked(Unpack(files, head), f, names[1..], name);
      assert head != [] ==> head[..0] == [];
      assert DiskName(names[0]) == name ==> NamedOf(name) == names[0];
      assert !IsDirectory(DiskName(names[0]));
    }
  }

  /** The file a disk name stands for; `PrivkeyPem` for a name that is none of the four. */
  function NamedOf(name: string): FileName
  {
    if name == "cert.pem" then CertPem else if name == "chain.pem" then ChainPem
    else if name == "fullchain.pem" then FullchainPem else PrivkeyPem
  }

  /** A file whose writing failed: left in some state, or not made at all. */
  function Torn(files: Listing, name: string, left: Option<string>): Listing
  {
    if left.Some? then files[name := left.value] else files
  }

  /** A directory the client writes to. */
  class Directory {
    var files: Listing

    constructor (files: Listing)
      ensures this.files == files
    {
      this.files := files;
    }

    /** Writes one file; on an error the file is left in some state. */
    method CopyFile(name: string, content: string, index: nat, fault: Fault) returns (ok: bool)
      modifies this
      ensures ok <==> (fault.FailedWrite? ==> fault.index != index)
      ensures ok ==> files == old(files)[name := content]
      ensures !ok ==> files == Torn(old(files), name, fault.left)
    {
      if fault.FailedWrite? && fault.index == index {
        if fault.left.Some? {
          files := files[name := fault.left.value];
        }
        return false;
      }
      files := files[name := content];
      return true;
    }

    method ExtractCertZip(zip: Archive, fault: Fault) returns (ok: bool)
      modifies this
      ensures ok <==> match fault
                      case NoFault => true
                      case NoDirectory => false
                      case FailedWrite(i, _) => i < |zip| ==> IsDirectory(zip[i].name)
      ensures ok ==> files == Unpack(old(files), zip)
      ensures !ok ==> match fault
                      case NoDirectory => files == old(files)
                      case FailedWrite(i, left) => files == Torn(Unpack(old(files), zip[..i]), zip[i].name, left)
      ensures forall name :: Find(files, name) != Find(old(files), name)
                ==> exists e <- zip :: e.name == name
    {
      if fault.NoDirectory? {
        return false;
      }
      var i := 0;
      ghost var before := files;
      assert zip[..0] == [];
      while i < |zip|
        invariant 0 <= i <= |zip|
        invariant files == Unpack(before, zip[..i])
        invariant fault.FailedWrite? && fault.index < i ==> IsDirectory(zip[fault.index].name)
        invariant forall name :: Find(files, name) != Find(before, name) ==> exists e <- zip :: e.name == name
      {
        assert zip[..i + 1][..i] == zip[..i];
        if !IsDirectory(zip[i].name) {
          ok := CopyFile(zip[i].name, zip[i].content, i, fault);
          if !ok {
            return;
          }
        }
        i := i + 1;
      }
      assert zip[..i] == zip;
      return true;
    }

    /** `copyCertificates`: `order` lists the source directory. */
    method CopyCertificates(source: Listing, order: seq<string>, fault: Fault) returns (ok: bool)
      requires forall name :: name in order <==> name in source
      modifies this
      ensures ok <==> match fault
                      case NoFault => true
                      case NoDirectory => false
                      case FailedWrite(i, _) => |order| <= i
      ensures ok ==> files == old(files) + source
      ensures !ok ==> match fault
                      case NoDirectory => files == old(files)
                      case FailedWrite(i, left) =>
                        files == Torn(old(files) + Chosen(source, order[..i]), order[i], left)
      ensures forall name :: name !in source ==> Find(files, name) == Find(old(files), name)
    {
      hide Chosen;
      ChosenNone(source);
      if fault.NoDirectory? {
        return false;
      }
      var i := 0;
      while i < |order|
        invariant 0 <= i <= |order|
        invariant files == old(files) + Chosen(source, order[..i])
        invariant fault.FailedWrite? ==> i <= fault.index
      {
        ChosenSnoc(source, order[..i], order[i]);
        ChosenKeys(source, order[..i]);
        assert order[..i + 1] == order[..i] + [order[i]];
        ok := CopyFile(order[i], source[order[i]], i, fault);
        if !ok {
          return;
        }
        i := i + 1;
      }
      assert order[..i] == order;
      ChosenKeys(source, order);
      ChosenAll(source, order);
      return true;
    }
  }

  /** The files of a listing that are named. */
  function Chosen(files: Listing, names: seq<string>): Listing
  {
    map name | name in files && name in names :: files[name]
  }

  lemma ChosenNone(files: Listing)
    ensures Chosen(files, []) == map[]
  {
  }

  lemma ChosenKeys(files: Listing, names: seq<string>)
    ensures forall name :: name in Chosen(files, names) ==> name in files
  {
  }

  lemma ChosenAll(files: Listing, names: seq<string>)
    requires forall name :: name in files ==> name in names
    ensures Chosen(files, names) == files
  {
  }

  lemma ChosenSnoc(files: Listing, names: seq<string>, name: string)
    requires name in files
    ensures Chosen(files, names + [name]) == Chosen(files, names)[name := files[name]]
  {
  }
}
