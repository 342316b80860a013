/** The version-0 byte format of directory objects: printer, parser, and the verifier that
    recomputes the id while it parses. */
module DirCodec {
  import opened Names
  import opened ByteBuffers

  const METADATA_TYPE_DIR: UInt32 := 3
  const ID_SIZE := 40
  const BASE_SIZE := 48       // mode, id, name_len
  const MAX_NAME := 255       // SEAF_DIR_NAME_LEN - 1
  const EMPTY_ID: Bytes := seq(ID_SIZE, _ => '0' as int)

  /** A directory entry; its name is as long as its name_len says. */
  datatype Dirent = Dirent(mode: UInt32, id: Bytes, name: Bytes)

  /** Entries as they exist in memory: 40-byte ids, and names whose length fits its field. */
  predicate Printable(es: seq<Dirent>) {
    forall e :: e in es ==> |e.id| == ID_SIZE && |e.name| < 0x1_0000_0000
  }

  // ---- words ----

  /** htonl: network byte order. */
  function Put32(n: UInt32): (r: Bytes)
    ensures |r| == 4
  {
    var hi: UInt32 := n / 0x100;
    var higher: UInt32 := hi / 0x100;
    [higher / 0x100, higher % 0x100, hi % 0x100, n % 0x100]
  }

  /** get32bit */
  function Get32(data: Bytes): UInt32
    requires |data| >= 4
  {
    var a: int, b: int, c: int, d: int := data[0], data[1], data[2], data[3];
    ((a * 0x100 + b) * 0x100 + c) * 0x100 + d
  }

  /** The mode word as it lies in memory when hashed: little endian on every machine. */
  function LittleEndian(n: UInt32): (r: Bytes)
    ensures |r| == 4
  {
    var word := Put32(n);
    [word[3], word[2], word[1], word[0]]
  }

  lemma WordRoundTrip(n: UInt32)
    ensures Get32(Put32(n)) == n
  {
  }

  /** Network order puts the most significant byte first, and the hashed word the least. */
  lemma WordOrders(n: UInt32)
    ensures var big: seq<int>, little: seq<int> := Put32(n), LittleEndian(n);
      && n as int == big[0] * 0x100_0000 + big[1] * 0x1_0000 + big[2] * 0x100 + big[3]
      && n as int == little[0] + little[1] * 0x100 + little[2] * 0x1_0000 + little[3] * 0x100_0000
  {
  }

  // ---- printing ----

  function PrintEntry(e: Dirent): (r: Bytes)
    requires |e.name| < 0x1_0000_0000
    ensures |e.id| == ID_SIZE ==> |r| == BASE_SIZE + |e.name|
  {
    Put32(e.mode) + e.id + Put32(|e.name|) + e.name
  }

  function PrintEntries(es: seq<Dirent>): Bytes
    requires Printable(es)
  {
    if es == [] then [] else PrintEntry(es[0]) + PrintEntries(es[1..])
  }

  /** The bytes of a directory object. */
  function Print(es: seq<Dirent>): Bytes
    requires Printable(es)
  {
    Put32(METADATA_TYPE_DIR) + PrintEntries(es)
  }

  function DataSize(es: seq<Dirent>): nat {
    if es == [] then 0 else BASE_SIZE + |es[0].name| + DataSize(es[1..])
  }

  // ---- parsing ----

  /** g_strndup stops at the first NUL. */
  function UpToNul(s: Bytes): (r: Bytes)
    ensures |r| <= |s|
  {
    if s == [] || s[0] == 0 then [] else [s[0]] + UpToNul(s[1..])
  }

  /** One entry cut off the front: its raw fields and what follows; None when it is cut short. */
  datatype RawEntry = RawEntry(mode: UInt32, id: Bytes, name: Bytes, rest: Bytes)

  function CutEntry(data: Bytes): (r: Option<RawEntry>)
    requires |data| > BASE_SIZE
    ensures r.Some? ==> |r.value.rest| < |data|
  {
    var nameLen := Get32(data[44..48]);
    var tail := data[48..];
    if |tail| < nameLen then None
    else
      var n := Min(nameLen, MAX_NAME);
      Some(RawEntry(Get32(data[..4]), data[4..44], tail[..n], tail[n..]))
  }

  /** seaf_dir_from_v0_data after the type word. */
  function ParseEntries(data: Bytes): Option<seq<Dirent>>
    decreases |data|
  {
    if |data| <= BASE_SIZE then Some([])
    else
      match CutEntry(data)
      case None => None
      case Some(raw) =>
        match ParseEntries(raw.rest)
        case None => None
        case Some(es) => Some([Dirent(raw.mode, raw.id, UpToNul(raw.name))] + es)
  }

  function Parse(data: Bytes): Option<seq<Dirent>>
    requires |data| >= 4
  {
    if Get32(data[..4]) != METADATA_TYPE_DIR then None else ParseEntries(data[4..])
  }

  function Behind(front: seq<Dirent>, tail: Option<seq<Dirent>>): Option<seq<Dirent>> {
    match tail
    case None => None
    case Some(es) => Some(front + es)
  }

  // ---- hashing ----

  /** What compute_dir_id_v0 feeds to the hash. */
  function IdInput(es: seq<Dirent>): Bytes {
    if es == [] then [] else es[0].id + es[0].name + LittleEndian(es[0].mode) + IdInput(es[1..])
  }

  /** What the verifier feeds to the hash while it parses. */
  function VerifyInput(data: Bytes): Option<Bytes>
    decreases |data|
  {
    if |data| <= BASE_SIZE then Some([])
    else
      match CutEntry(data)
      case None => None
      case Some(raw) =>
        match VerifyInput(raw.rest)
        case None => None
        case Some(fed) => Some(raw.id + raw.name + LittleEndian(raw.mode) + fed)
  }

  // ---- round trips ----

  /** Names that survive: C strings of at most 255 bytes, and the last of them not empty. */
  predicate PlainName(name: Bytes) {
    |name| <= MAX_NAME && 0 !in name
  }

  predicate Survives(es: seq<Dirent>) {
    (forall e :: e in es ==> PlainName(e.name)) && (es != [] ==> es[|es| - 1].name != [])
  }

  lemma {:induction false} NulFreeIsKept(s: Bytes)
    ensures UpToNul(s) == s <==> 0 !in s
  {
    if s != [] {
      NulFreeIsKept(s[1..]);
      if s[0] != 0 {
        assert UpToNul(s)[1..] == UpToNul(s[1..]);
        assert s == [s[0]] + s[1..];
      }
    }
  }

  /** A printed entry comes off the front again, unless it is the last one and has no name. */
  lemma CutPrinted(e: Dirent, rest: Bytes)
    requires |e.id| == ID_SIZE && |e.name| < 0x1_0000_0000
    requires |PrintEntry(e) + rest| > BASE_SIZE
    ensures var n := Min(|e.name|, MAX_NAME);
      CutEntry(PrintEntry(e) + rest) == Some(RawEntry(e.mode, e.id, e.name[..n], e.name[n..] + rest))
  {
    var data := PrintEntry(e) + rest;
    var n := Min(|e.name|, MAX_NAME);
    assert data[..4] == Put32(e.mode);
    assert data[4..44] == e.id;
    assert data[44..48] == Put32(|e.name|);
    assert data[48..] == e.name + rest;
    assert data[48..][..n] == e.name[..n];
    assert data[48..][n..] == e.name[n..] + rest;
    WordRoundTrip(e.mode);
    WordRoundTrip(|e.name|);
  }

  lemma ParsePrinted(e: Dirent, rest: Bytes)
    requires |e.id| == ID_SIZE && |e.name| < 0x1_0000_0000
    requires |PrintEntry(e) + rest| > BASE_SIZE
    ensures var n := Min(|e.name|, MAX_NAME);
      ParseEntries(PrintEntry(e) + rest)
      == Behind([Dirent(e.mode, e.id, UpToNul(e.name[..n]))], ParseEntries(e.name[n..] + rest))
  {
    CutPrinted(e, rest);
  }

  /** Parsing what was printed gives the entries back exactly when every name is a C string of at
      most 255 bytes and the last name is not empty. */
  lemma {:induction false} EntriesRoundTrip(es: seq<Dirent>)
    requires Printable(es)
    ensures ParseEntries(PrintEntries(es)) == Some(es) <==> Survives(es)
  {
    if es != [] {
      var e, rest := es[0], PrintEntries(es[1..]);
      EntriesRoundTrip(es[1..]);
      if es[1..] == [] && e.name == [] {
        assert |PrintEntry(e) + rest| == BASE_SIZE;
      } else {
        ParsePrinted(e, rest);
        if PlainName(e.name) {
          PlainFirstEntry(es);
        } else {
          OddFirstEntry(es);
        }
      }
    }
  }

  lemma PlainFirstEntry(es: seq<Dirent>)
    requires Printable(es) && es != [] && PlainName(es[0].name)
    requires es[1..] != [] || es[0].name != []
    requires ParseEntries(PrintEntries(es[1..])) == Some(es[1..]) <==> Survives(es[1..])
    ensures ParseEntries(PrintEntries(es)) == Some(es) <==> Survives(es)
  {
    PlainEntryParses(es[0], PrintEntries(es[1..]));
    SameTail(ParseEntries(PrintEntries(es[1..])), es);
    PlainEntrySurvives(es);
  }

  lemma PlainEntrySurvives(es: seq<Dirent>)
    requires es != [] && PlainName(es[0].name)
    requires es[1..] != [] || es[0].name != []
    ensures Survives(es) <==> Survives(es[1..])
  {
  }

  lemma PlainEntryParses(e: Dirent, rest: Bytes)
    requires |e.id| == ID_SIZE && PlainName(e.name)
    requires |PrintEntry(e) + rest| > BASE_SIZE
    ensures ParseEntries(PrintEntry(e) + rest) == Behind([e], ParseEntries(rest))
  {
    ParsePrinted(e, rest);
    NulFreeIsKept(e.name);
    assert e.name[..|e.name|] == e.name && e.name[|e.name|..] + rest == rest;
  }

  lemma SameTail(tail: Option<seq<Dirent>>, es: seq<Dirent>)
    requires es != []
    ensures Behind([es[0]], tail) == Some(es) <==> tail == Some(es[1..])
  {
    assert es == [es[0]] + es[1..];
    if tail.Some? {
      assert ([es[0]] + tail.value)[1..] == tail.value;
    }
  }

  lemma OddFirstEntry(es: seq<Dirent>)
    requires Printable(es) && es != [] && !PlainName(es[0].name)
    ensures ParseEntries(PrintEntries(es)) != Some(es) && !Survives(es)
  {
    var e, rest := es[0], PrintEntries(es[1..]);
    var n := Min(|e.name|, MAX_NAME);
    ParsePrinted(e, rest);
    NulFreeIsKept(e.name[..n]);
    assert |e.name| <= MAX_NAME ==> e.name[..n] == e.name;
    assert e in es;
  }

  /** A directory object gives its entries back exactly when they survive. */
  lemma DirRoundTrip(es: seq<Dirent>)
    requires Printable(es)
    ensures Parse(Print(es)) == Some(es) <==> Survives(es)
  {
    WordRoundTrip(METADATA_TYPE_DIR);
    assert Print(es)[..4] == Put32(METADATA_TYPE_DIR);
    assert Print(es)[4..] == PrintEntries(es);
    EntriesRoundTrip(es);
  }

  lemma PrintOne(e: Dirent)
    requires Printable([e])
    ensures Parse(Print([e])) == ParseEntries(PrintEntry(e) + [])
  {
    WordRoundTrip(METADATA_TYPE_DIR);
    assert e in [e];
    assert PrintEntries([e]) == PrintEntry(e) + [];
    assert Print([e])[..4] == Put32(METADATA_TYPE_DIR);
    assert Print([e])[4..] == PrintEntry(e) + [];
  }

  /** A name of 256 bytes comes back one byte shorter. */
  lemma LongNameIsCut(mode: UInt32, id: Bytes, name: Bytes)
    requires |id| == ID_SIZE && |name| == MAX_NAME + 1 && 0 !in name
    ensures var e := Dirent(mode, id, name);
      Printable([e]) && Parse(Print([e])) == Some([Dirent(mode, id, name[..MAX_NAME])])
  {
    var e := Dirent(mode, id, name);
    PrintOne(e);
    ParsePrinted(e, []);
    NulFreeIsKept(name[..MAX_NAME]);
    var rest, back := name[MAX_NAME..] + [], [Dirent(mode, id, name[..MAX_NAME])];
    assert |rest| == 1 && ParseEntries(rest) == Some([]);
    assert back + [] == back;
  }

  /** A last entry without a name is not found again. */
  lemma NamelessEntryIsLost(mode: UInt32, id: Bytes)
    requires |id| == ID_SIZE
    ensures var e := Dirent(mode, id, []);
      Printable([e]) && Parse(Print([e])) == Some([])
  {
    PrintOne(Dirent(mode, id, []));
  }

  /** The verifier hashes the same bytes as the id computation, NUL bytes in names included. */
  lemma {:induction false} VerifierHashesTheSame(es: seq<Dirent>)
    requires Printable(es) && forall e :: e in es ==> |e.name| <= MAX_NAME
    requires es != [] ==> es[|es| - 1].name != []
    ensures VerifyInput(PrintEntries(es)) == Some(IdInput(es))
  {
    if es != [] {
      var e, rest := es[0], PrintEntries(es[1..]);
      VerifierHashesTheSame(es[1..]);
      assert es[1..] != [] ==> es[1..][0] in es;
      assert |PrintEntry(e) + rest| > BASE_SIZE;
      CutPrinted(e, rest);
      assert e.name[..|e.name|] == e.name && e.name[|e.name|..] + rest == rest;
    }
  }

  // ---- where things lie ----

  lemma {:induction false} PrintSplits(es: seq<Dirent>, k: nat)
    requires Printable(es) && k < |es|
    ensures Printable(es[..k]) && Printable(es[k + 1..])
    ensures PrintEntries(es) == PrintEntries(es[..k]) + (PrintEntry(es[k]) + PrintEntries(es[k + 1..]))
    ensures |PrintEntries(es[..k])| == DataSize(es[..k])
    decreases k
  {
    if k == 0 {
      assert PrintEntries(es[..0]) == [];
    } else {
      var rest := es[1..];
      PrintSplits(rest, k - 1);
      InFront(PrintEntry(es[0]), PrintEntries(rest[..k - 1]), PrintEntry(es[k]) + PrintEntries(es[k + 1..]));
      assert es[..k] == [es[0]] + rest[..k - 1] && es[..k][1..] == rest[..k - 1];
      assert rest[k - 1] == es[k] && rest[k..] == es[k + 1..];
      assert forall e :: e in es[..k] ==> e in es;
    }
  }

  lemma Shifted(front: Bytes, tail: Bytes, i: nat, j: nat)
    requires i <= j <= |tail|
    ensures (front + tail)[|front| + i..|front| + j] == tail[i..j]
  {
  }

  /** The layout of an entry: mode, id, length of the name and the name, behind the type word and the
      entries before it. */
  lemma EntryLayout(es: seq<Dirent>, k: nat)
    requires Printable(es) && k < |es|
    ensures var data, at, e := Print(es), 4 + DataSize(es[..k]), es[k];
      && at + BASE_SIZE + |e.name| <= |data|
      && data[..4] == [0, 0, 0, 3]
      && data[at..at + 4] == Put32(e.mode) && data[at + 4..at + 44] == e.id
      && data[at + 44..at + 48] == Put32(|e.name|) && data[at + 48..at + 48 + |e.name|] == e.name
  {
    TypeWord(es);
    var front, tail := PrintAround(es, k);
    Shifted(front, tail, 0, 4);
    Shifted(front, tail, 4, 44);
    Shifted(front, tail, 44, 48);
    Shifted(front, tail, 48, 48 + |es[k].name|);
  }

  /** What is printed before an entry, and from it on. */
  lemma PrintAround(es: seq<Dirent>, k: nat) returns (front: Bytes, tail: Bytes)
    requires Printable(es) && k < |es|
    ensures Print(es) == front + tail && |front| == 4 + DataSize(es[..k])
    ensures var e := es[k];
      && |tail| >= BASE_SIZE + |e.name|
      && tail[..4] == Put32(e.mode) && tail[4..44] == e.id
      && tail[44..48] == Put32(|e.name|) && tail[48..48 + |e.name|] == e.name
  {
    PrintSplits(es, k);
    var word, before, rest := Put32(METADATA_TYPE_DIR), PrintEntries(es[..k]), PrintEntries(es[k + 1..]);
    EntryParts(es[k], rest);
    front, tail := word + before, PrintEntry(es[k]) + rest;
    InFront(word, before, tail);
  }

  lemma TypeWord(es: seq<Dirent>)
    requires Printable(es)
    ensures |Print(es)| >= 4 && Print(es)[..4] == [0, 0, 0, 3]
  {
    assert Put32(METADATA_TYPE_DIR) == [0, 0, 0, 3];
  }

  lemma InFront(x: Bytes, y: Bytes, z: Bytes)
    ensures x + (y + z) == (x + y) + z
  {
  }

  lemma EntryParts(e: Dirent, back: Bytes)
    requires |e.id| == ID_SIZE && |e.name| < 0x1_0000_0000
    ensures var tail := PrintEntry(e) + back;
      && |tail| >= BASE_SIZE + |e.name|
      && tail[..4] == Put32(e.mode) && tail[4..44] == e.id
      && tail[44..48] == Put32(|e.name|) && tail[48..48 + |e.name|] == e.name
  {
  }

  /** The hash is fed, for each entry in turn, its id, its name and its mode. */
  lemma {:induction false} IdInputLayout(es: seq<Dirent>, k: nat)
    requires k < |es|
    ensures IdInput(es) == IdInput(es[..k]) + (es[k].id + es[k].name + LittleEndian(es[k].mode) + IdInput(es[k + 1..]))
    decreases k
  {
    if k == 0 {
      assert IdInput(es[..0]) == [];
    } else {
      var rest := es[1..];
      IdInputLayout(rest, k - 1);
      assert es[..k][0] == es[0] && es[..k][1..] == rest[..k - 1] && rest[k - 1] == es[k] && rest[k..] == es[k + 1..];
      InFront(es[0].id + es[0].name + LittleEndian(es[0].mode), IdInput(rest[..k - 1]),
              es[k].id + es[k].name + LittleEndian(es[k].mode) + IdInput(es[k + 1..]));
    }
  }

  /** The id a directory is saved under: all zeros when empty. */
  function DirId(es: seq<Dirent>, sha1: Bytes -> Bytes): Bytes {
    if es == [] then EMPTY_ID else sha1(IdInput(es))
  }

  /** What verify_seafdir_v0 decides. */
  predicate Accepted(dirId: Bytes, data: Bytes, verifyId: bool, sha1: Bytes -> Bytes) {
    && |data| >= 4
    && Get32(data[..4]) == METADATA_TYPE_DIR
    && VerifyInput(data[4..]).Some?
    && (verifyId ==> sha1(VerifyInput(data[4..]).value) == dirId)
  }

  /** Every saved directory passes verification, whatever the hash; the empty one, whose id is not
      a hash, passes only if nothing hashes to zeros. */
  lemma SavedDirsVerify(es: seq<Dirent>, verifyId: bool, sha1: Bytes -> Bytes)
    requires Printable(es) && forall e :: e in es ==> |e.name| <= MAX_NAME
    requires es != [] ==> es[|es| - 1].name != []
    ensures Accepted(DirId(es, sha1), Print(es), verifyId, sha1)
      <==> (verifyId && es == [] ==> sha1([]) == EMPTY_ID)
  {
    WordRoundTrip(METADATA_TYPE_DIR);
    assert Print(es)[..4] == Put32(METADATA_TYPE_DIR);
    assert Print(es)[4..] == PrintEntries(es);
    VerifierHashesTheSame(es);
  }

  /** The verifier and the parser accept the same bytes. */
  lemma {:induction false} VerifierParses(data: Bytes)
    ensures VerifyInput(data).Some? == ParseEntries(data).Some?
    decreases |data|
  {
    if |data| > BASE_SIZE && CutEntry(data).Some? {
      VerifierParses(CutEntry(data).value.rest);
    }
  }

  // ---- the code ----

  lemma {:induction false} SizeIsLength(es: seq<Dirent>)
    requires Printable(es)
    ensures |PrintEntries(es)| == DataSize(es)
  {
    if es != [] {
      SizeIsLength(es[1..]);
    }
  }

  /** One entry written at p; the buffer up to the moved pointer is what was there plus the entry. */
  method PutEntry(buffer: array<Byte>, start: nat, e: Dirent) returns (p: nat)
    requires |e.id| == ID_SIZE && |e.name| < 0x1_0000_0000
    requires start + BASE_SIZE + |e.name| <= buffer.Length
    modifies buffer
    ensures p == start + BASE_SIZE + |e.name|
    ensures buffer[..p] == old(buffer[..start]) + PrintEntry(e)
  {
    p := Copy(buffer, start, Put32(e.mode));
    p := Copy(buffer, p, e.id);
    p := Copy(buffer, p, Put32(|e.name|));
    p := Copy(buffer, p, e.name);
  }

  /** What is done stays in front while the next entry is added. */
  lemma NextEntry(done: Bytes, es: seq<Dirent>, i: nat)
    requires i < |es| && Printable(es[i..]) && Printable(es[i + 1..])
    ensures done + PrintEntries(es[i..]) == (done + PrintEntry(es[i])) + PrintEntries(es[i + 1..])
    ensures DataSize(es[i..]) == BASE_SIZE + |es[i].name| + DataSize(es[i + 1..])
  {
  }

  method SeafDirToV0Data(es: seq<Dirent>) returns (ondisk: array<Byte>)
    requires Printable(es)
    ensures fresh(ondisk) && ondisk[..] == Print(es)
  {
    var size, i := 4, 0;
    while i < |es|
      invariant 0 <= i <= |es|
      invariant size + DataSize(es[i..]) == 4 + DataSize(es)
    {
      assert es[i..][1..] == es[i + 1..];
      size := size + (BASE_SIZE + |es[i].name|);
      i := i + 1;
    }
    assert es[0..] == es;
    ondisk := new Byte[size](_ => 0);
    var p := Copy(ondisk, 0, Put32(METADATA_TYPE_DIR));
    i := 0;
    while i < |es|
      invariant 0 <= i <= |es|
      invariant 4 <= p <= ondisk.Length && p + DataSize(es[i..]) == size
      invariant ondisk[..p] + PrintEntries(es[i..]) == Print(es)
    {
      NextEntry(ondisk[..p], es, i);
      p := PutEntry(ondisk, p, es[i]);
      i := i + 1;
    }
    assert ondisk[..p] + [] == ondisk[..];
  }

  function Reversed(es: seq<Dirent>): (r: seq<Dirent>)
    ensures |r| == |es|
  {
    if es == [] then [] else Reversed(es[1..]) + [es[0]]
  }

  lemma CutIsAsRead(left: Bytes)
    requires |left| > BASE_SIZE
    requires Get32(left[44..48]) <= |left| - BASE_SIZE
    ensures var n := Min(Get32(left[44..48]), MAX_NAME);
      CutEntry(left) == Some(RawEntry(Get32(left[..4]), left[4..44], left[48..48 + n], left[48 + n..]))
  {
    var n := Min(Get32(left[44..48]), MAX_NAME);
    assert left[48..][..n] == left[48..48 + n];
    assert left[48..][n..] == left[48 + n..];
  }

  lemma BehindTwice(done: seq<Dirent>, e: Dirent, tail: Option<seq<Dirent>>)
    ensures Behind(done, Behind([e], tail)) == Behind(done + [e], tail)
  {
    if tail.Some? {
      assert done + ([e] + tail.value) == (done + [e]) + tail.value;
    }
  }

  /** One more entry parsed: it moves from what is left to what is done. */
  lemma OneMore(left: Bytes, done: seq<Dirent>)
    requires |left| > BASE_SIZE && CutEntry(left).Some?
    ensures var raw := CutEntry(left).value;
      Behind(done, ParseEntries(left))
      == Behind(done + [Dirent(raw.mode, raw.id, UpToNul(raw.name))], ParseEntries(raw.rest))
  {
    var raw := CutEntry(left).value;
    BehindTwice(done, Dirent(raw.mode, raw.id, UpToNul(raw.name)), ParseEntries(raw.rest));
  }

  /** The fields of the entry at ptr, and the pointer behind it; false when it is cut short. */
  method ReadEntry(data: array<Byte>, start: nat)
    returns (ok: bool, mode: UInt32, id: Bytes, name: Bytes, ptr: nat)
    requires start <= data.Length && data.Length - start > BASE_SIZE
    ensures ok == CutEntry(data[start..]).Some?
    ensures ok ==>
      && start < ptr <= data.Length
      && CutEntry(data[start..]) == Some(RawEntry(mode, id, name, data[ptr..]))
  {
    ghost var left := data[start..];
    ptr, mode := start + 4, Get32(data[start..start + 4]);
    id, ptr := data[ptr..ptr + 40], ptr + 40;
    var nameLen := Get32(data[ptr..ptr + 4]);
    ptr := ptr + 4;
    assert left[..4] == data[start..start + 4];
    assert left[4..44] == data[start + 4..start + 44];
    assert left[44..48] == data[start + 44..start + 48];
    if data.Length - ptr >= nameLen {
      CutIsAsRead(left);
      var n := Min(nameLen, MAX_NAME);
      ok, name, ptr := true, data[ptr..ptr + n], ptr + n;
      assert left[48..48 + n] == data[start + 48..start + 48 + n];
      assert left[48 + n..] == data[start + 48 + n..];
    } else {
      ok, name := false, [];
    }
  }

  method SeafDirFromV0Data(data: array<Byte>) returns (r: Option<seq<Dirent>>)
    requires data.Length >= 4
    ensures r == Parse(data[..])
  {
    assert data[..][..4] == data[..4] && data[..][4..] == data[4..];
    if Get32(data[..4]) != METADATA_TYPE_DIR {
      return None;
    }
    var ptr := 4;
    var entries: seq<Dirent> := [];
    assert Behind([], ParseEntries(data[4..])) == ParseEntries(data[4..]) by {
      if ParseEntries(data[4..]).Some? {
        assert [] + ParseEntries(data[4..]).value == ParseEntries(data[4..]).value;
      }
    }
    while data.Length - ptr > BASE_SIZE
      invariant 4 <= ptr <= data.Length
      invariant ParseEntries(data[4..]) == Behind(Reversed(entries), ParseEntries(data[ptr..]))
      decreases data.Length - ptr
    {
      ghost var left := data[ptr..];
      var ok, mode, id, name, next := ReadEntry(data, ptr);
      if !ok {
        return None;
      }
      OneMore(left, Reversed(entries));
      entries, ptr := [Dirent(mode, id, UpToNul(name))] + entries, next;
    }
    assert Reversed(entries) + [] == Reversed(entries);
    r := Some(Reversed(entries));
  }

  lemma FeedEntry(ctx: Bytes, es: seq<Dirent>, i: nat)
    requires i < |es|
    ensures ctx + IdInput(es[i..])
      == ctx + es[i].id + es[i].name + LittleEndian(es[i].mode) + IdInput(es[i + 1..])
  {
  }

  method ComputeDirIdV0(es: seq<Dirent>, sha1: Bytes -> Bytes) returns (dirId: Bytes)
    ensures dirId == DirId(es, sha1)
  {
    if es == [] {
      return EMPTY_ID;
    }
    var ctx: Bytes, i := [], 0;
    while i < |es|
      invariant 0 <= i <= |es|
      invariant ctx + IdInput(es[i..]) == IdInput(es)
    {
      FeedEntry(ctx, es, i);
      ctx := ctx + es[i].id;
      ctx := ctx + es[i].name;
      ctx := ctx + LittleEndian(es[i].mode);
      i := i + 1;
    }
    assert ctx + [] == ctx;
    dirId := sha1(ctx);
  }

  /** What the hash is fed in all: what it got so far and what the rest of the data gives it. */
  function Feeding(ctx: Bytes, left: Bytes): Option<Bytes> {
    match VerifyInput(left)
    case None => None
    case Some(fed) => Some(ctx + fed)
  }

  lemma FeedOne(ctx: Bytes, left: Bytes)
    requires |left| > BASE_SIZE && CutEntry(left).Some?
    ensures var raw := CutEntry(left).value;
      Feeding(ctx, left) == Feeding(ctx + raw.id + raw.name + LittleEndian(raw.mode), raw.rest)
  {
    var raw := CutEntry(left).value;
    if VerifyInput(raw.rest).Some? {
      var fed, mode := VerifyInput(raw.rest).value, LittleEndian(raw.mode);
      assert ctx + (raw.id + raw.name + mode + fed) == (ctx + raw.id + raw.name + mode) + fed;
    }
  }

  lemma FeedAll(left: Bytes)
    ensures Feeding([], left) == VerifyInput(left)
  {
    if VerifyInput(left).Some? {
      assert [] + VerifyInput(left).value == VerifyInput(left).value;
    }
  }

  method VerifySeafdirV0(dirId: Bytes, data: array<Byte>, verifyId: bool, sha1: Bytes -> Bytes)
    returns (ok: bool)
    ensures ok == Accepted(dirId, data[..], verifyId, sha1)
  {
    if data.Length < 4 {
      return false;
    }
    assert data[..][..4] == data[..4] && data[..][4..] == data[4..];
    if Get32(data[..4]) != METADATA_TYPE_DIR {
      return false;
    }
    var wellFormed, ctx := FeedEntries(data, verifyId);
    ok := wellFormed && (!verifyId || sha1(ctx) == dirId);
  }

  /** The loop of the verifier: is the data well formed, and what was the hash fed? */
  method FeedEntries(data: array<Byte>, verifyId: bool) returns (wellFormed: bool, ctx: Bytes)
    requires data.Length >= 4
    ensures wellFormed == VerifyInput(data[4..]).Some?
    ensures wellFormed && verifyId ==> VerifyInput(data[4..]) == Some(ctx)
  {
    var ptr := 4;
    ctx := [];
    FeedAll(data[4..]);
    while data.Length - ptr > BASE_SIZE
      invariant 4 <= ptr <= data.Length
      invariant VerifyInput(data[4..]).Some? == VerifyInput(data[ptr..]).Some?
      invariant verifyId ==> VerifyInput(data[4..]) == Feeding(ctx, data[ptr..])
      decreases data.Length - ptr
    {
      var fine, mode, id, name, next := ReadEntry(data, ptr);
      if !fine {
        return false, ctx;
      }
      FeedOne(ctx, data[ptr..]);
      ptr := next;
      if verifyId {
        ctx := ctx + id;
        ctx := ctx + name;
        ctx := ctx + LittleEndian(mode);
      }
    }
    wellFormed := true;
    assert ctx + [] == ctx;
  }
}
