/** `MessageMapper`: the methods that read and write one queue's data file. */
module MessageMapper {
  import opened Basics
  import opened PayloadCodec
  import opened RecordLog
  import opened Files

  type UInt32 = x: int | 0 <= x < TWO_32

  /** size_t to uint32, as `set_offset` and `set_length` narrow it. */
  function ToUInt32(n: nat): UInt32 {
    n % TWO_32
  }

  lemma {:induction false} Narrow(n: nat)
    requires n < TWO_32
    ensures ToUInt32(n) == n
  {
  }

  lemma {:induction false} NarrowLength(p: Payload)
    requires Storable(p)
    ensures ToUInt32(|Serialize(p)|) == |Serialize(p)|
  {
    hide Serialize;
  }

  /** A message object: shared by the store's list and maps. */
  class Message {
    var payload: Payload
    var offset: UInt32
    var length: UInt32

    constructor (payload: Payload)
      ensures this.payload == payload && offset == 0 && length == 0
    {
      this.payload := payload;
      offset, length := 0, 0;
    }
  }

  ghost function Payloads(ms: seq<Message>): (ps: seq<Payload>)
    reads ms`payload
    ensures |ps| == |ms| && forall i | 0 <= i < |ms| :: ps[i] == ms[i].payload
  {
    if ms == [] then [] else [ms[0].payload] + Payloads(ms[1..])
  }

  ghost predicate Distinct(ms: seq<Message>) {
    forall i, j | 0 <= i < j < |ms| :: ms[i] != ms[j]
  }

  /** The messages carry the offsets and lengths of a log's records. */
  ghost predicate Placed(ms: seq<Message>, log: seq<Payload>)
    requires |ms| <= |log|
    reads ms`offset, ms`length
  {
    forall i | 0 <= i < |ms| ::
      ms[i].offset == ToUInt32(Start(log, i)) && ms[i].length == ToUInt32(|Serialize(log[i])|)
  }

  /** What a record holds of a payload: nothing when protobuf refuses to serialize it. */
  function StoredAs(p: Payload): Payload {
    if Storable(p) then p else NO_PAYLOAD
  }

  function AsStored(log: seq<Payload>): (r: seq<Payload>)
    ensures |r| == |log| && forall i | 0 <= i < |log| :: r[i] == StoredAs(log[i])
  {
    if log == [] then [] else [StoredAs(log[0])] + AsStored(log[1..])
  }

  lemma {:induction false} AsStoredSame(log: seq<Payload>)
    requires AllStorable(log)
    ensures AsStored(log) == log
  {
    hide Storable;
  }

  const DATAFILE_SUFFIX: Bytes := [46, 109, 113, 100]                    // ".mqd"
  const TMPFILE_SUFFIX: Bytes := [46, 109, 113, 100, 46, 116, 109, 112]  // ".mqd.tmp"

  function DataFile(basedir: Bytes, qname: Bytes): Bytes {
    basedir + qname + DATAFILE_SUFFIX
  }

  function TmpFile(basedir: Bytes, qname: Bytes): Bytes {
    basedir + qname + TMPFILE_SUFFIX
  }

  /** The files of a queue are named after it: its name, then ".mqd"; the temporary one has ".tmp" behind that. */
  lemma {:induction false} FileNames(basedir: Bytes, q: Bytes)
    ensures DataFile(basedir, q) == basedir + q + [46, 109, 113, 100]
    ensures TmpFile(basedir, q) == DataFile(basedir, q) + [46, 116, 109, 112]
  {
  }

  /** Offsets and lengths are kept in 32 bits; protobuf serializes up to 2^31 - 1 bytes. */
  lemma {:induction false} Limits(n: nat, p: Payload)
    ensures ToUInt32(n) == n % 4294967296
    ensures SerializedString(p) == if |Serialize(p)| <= 2147483647 then Serialize(p) else []
    ensures StoredAs(p) == if |Serialize(p)| <= 2147483647 then p else Payload(None, [], [])
  {
    hide Serialize;
  }

  /** No two queues share a file, and no data file is a temporary file. */
  lemma {:induction false} FilesApart(basedir: Bytes, q: Bytes, q': Bytes)
    ensures DataFile(basedir, q) != TmpFile(basedir, q')
    ensures q != q' ==> DataFile(basedir, q) != DataFile(basedir, q') && TmpFile(basedir, q) != TmpFile(basedir, q')
  {
    var d, d', t, t' := DataFile(basedir, q), DataFile(basedir, q'), TmpFile(basedir, q), TmpFile(basedir, q');
    assert d[|d| - 1] == 100 && t'[|t'| - 1] == 112;
    if q != q' {
      assert d[|basedir|..|d| - 4] == q && d'[|basedir|..|d'| - 4] == q';
      assert t[|basedir|..|t| - 8] == q && t'[|basedir|..|t'| - 8] == q';
    }
  }

  class MessageMapper {
    const fs: FileSystem
    const dataFile: Bytes
    const tmpFile: Bytes

    /** Creates the data file when it is absent. */
    constructor (fs: FileSystem, basedir: Bytes, qname: Bytes)
      modifies fs
      ensures this.fs == fs && dataFile == DataFile(basedir, qname) && tmpFile == TmpFile(basedir, qname)
      ensures dataFile != tmpFile
      ensures fs.files == if dataFile in old(fs.files) then old(fs.files) else old(fs.files)[dataFile := []]
    {
      this.fs := fs;
      dataFile, tmpFile := DataFile(basedir, qname), TmpFile(basedir, qname);
      new;
      FilesApart(basedir, qname, qname);
      var present := fs.Exists(dataFile);
      if !present {
        fs.CreateFile(dataFile);
      }
    }

    method RemoveMsgFile()
      modifies fs
      ensures fs.files == old(fs.files) - {dataFile, tmpFile}
    {
      var ok := fs.RemoveFile(dataFile);
      ok := fs.RemoveFile(tmpFile);
    }

    /** Appends one record to a file: the length prefix, then the payload, which is empty when protobuf
        refuses to serialize it. */
    method InsertInto(filename: Bytes, msg: Message)
      modifies fs, msg`offset, msg`length
      ensures var body := SerializedString(msg.payload);
              && fs.files == old(fs.files)[filename := old(fs.Content(filename)) + (LittleEndian(|body|, 8) + body)]
              && msg.offset == ToUInt32(|old(fs.Content(filename))| + 8)
              && msg.length == ToUInt32(|body|)
    {
      hide Serialize, Overwrite, SerializedString;
      var body := SerializeAsString(msg.payload);
      var fsize := fs.Size(filename);
      var prefix := LittleEndian(|body|, 8);
      AppendTwice(fs.Content(filename), prefix, body);
      hide LittleEndian;
      fs.Write(filename, prefix, fsize);
      fs.Write(filename, body, fsize + 8);
      msg.offset := ToUInt32(fsize + 8);
      msg.length := ToUInt32(|body|);
    }

    method Insert(msg: Message)
      modifies fs, msg`offset, msg`length
      ensures var body := SerializedString(msg.payload);
              && fs.files == old(fs.files)[dataFile := old(fs.Content(dataFile)) + (LittleEndian(|body|, 8) + body)]
              && msg.offset == ToUInt32(|old(fs.Content(dataFile))| + 8)
              && msg.length == ToUInt32(|body|)
    {
      hide SerializedString, LittleEndian;
      InsertInto(dataFile, msg);
    }

    /** Marks the message dead and overwrites its record in place, unless the size changed. */
    method Remove(msg: Message) returns (ok: bool)
      modifies fs, msg`payload
      ensures msg.payload == Dead(old(msg.payload))
      ensures ok <==> |SerializedString(msg.payload)| == msg.length
      ensures fs.files == if ok
                          then old(fs.files)[dataFile := Overwrite(old(fs.Content(dataFile)), msg.offset,
                                                                   SerializedString(msg.payload))]
                          else old(fs.files)
    {
      msg.payload := msg.payload.(valid := DEAD);
      var body := SerializeAsString(msg.payload);
      hide SerializedString, Overwrite;
      if |body| != msg.length {
        return false;
      }
      fs.Write(dataFile, body, msg.offset);
      return true;
    }

    /** One turn of the loading loop: the record at an offset, unless it is cut short. */
    method ReadRecord(offset: nat) returns (ok: bool, next: nat, payload: Payload)
      requires offset < |fs.Content(dataFile)|
      ensures !ok ==> Scan(fs.Content(dataFile)[offset..]) == (false, [])
      ensures ok ==> offset < next <= |fs.Content(dataFile)|
      ensures ok ==> ScanAfter(fs.Content(dataFile), offset, next, payload)
    {
      hide Scan, Parse, FromLittleEndian, ScanAfter;
      ghost var f := fs.Content(dataFile);
      var head, body;
      ok, head := fs.Read(dataFile, offset, 8);
      if !ok {
        CutHead(f, offset);
        return false, 0, NO_PAYLOAD;
      }
      var size := FromLittleEndian(head);
      ok, body := fs.Read(dataFile, offset + 8, size);
      if !ok {
        CutBody(f, offset);
        return false, 0, NO_PAYLOAD;
      }
      assert body == f[offset + 8..offset + 8 + size];
      WholeRecord(f, offset);
      return true, offset + 8 + size, Parse(body);
    }

    /** Reads record after record; false as soon as one is cut short. */
    method Load() returns (ok: bool, result: seq<Message>)
      ensures (ok, Payloads(result)) == Scan(fs.Content(dataFile))
      ensures fresh(result) && Distinct(result)
    {
      hide *;
      ghost var f := fs.Content(dataFile);
      ghost var seen: seq<Payload> := [];
      result := [];
      var offset := 0;
      var fsize := fs.Size(dataFile);
      LoadStart(f);
      while offset < fsize
        invariant 0 <= offset <= fsize
        invariant fresh(result)
        invariant forall i, j | 0 <= i < j < |result| :: result[i] != result[j]
        invariant |seen| == |result| && forall i | 0 <= i < |result| :: result[i].payload == seen[i]
        invariant LoadedUpTo(f, offset, seen)
      {
        var read, next, payload := ReadRecord(offset);
        if !read {
          LoadEnd(f, offset, seen);
          assert seen == Payloads(result);
          DistinctIs(result);
          return false, result;
        }
        LoadNext(f, offset, next, seen, payload);
        offset := next;
        if payload.valid == DEAD {
          continue;
        }
        var msg := new Message(payload);
        result := result + [msg];
        seen := seen + [payload];
      }
      LoadEnd(f, offset, seen);
      assert seen == Payloads(result);
      DistinctIs(result);
      return true, result;
    }

    /** Copies what load sees into the temporary file and puts that in place of the data file. */
    method Gc() returns (result: seq<Message>)
      requires dataFile != tmpFile
      modifies fs
      ensures fresh(result) && Distinct(result)
      ensures Payloads(result) == Scan(old(fs.Content(dataFile))).1
      ensures !Scan(old(fs.Content(dataFile))).0 ==> fs.files == old(fs.files)
      ensures Scan(old(fs.Content(dataFile))).0 ==>
        var kept := AsStored(Payloads(result));
        && Placed(result, kept)
        && fs.files == if dataFile in old(fs.files) then old(fs.files)[dataFile := Image(kept)] - {tmpFile}
                       else old(fs.files)[tmpFile := Image(kept)]
    {
      hide *;
      var ok;
      ok, result := Load();
      if !ok {
        return;
      }
      Rewrite(result);
    }

    /** The rest of `gc`: the temporary file is filled and renamed over the data file, when there is one. */
    method Rewrite(ms: seq<Message>)
      requires Distinct(ms) && dataFile != tmpFile
      modifies fs, ms`offset, ms`length
      ensures var kept := AsStored(Payloads(ms));
              && Placed(ms, kept)
              && fs.files == if dataFile in old(fs.files) then old(fs.files)[dataFile := Image(kept)] - {tmpFile}
                             else old(fs.files)[tmpFile := Image(kept)]
    {
      hide *;
      RenameOver(fs.files, tmpFile, dataFile, Image(AsStored(Payloads(ms))));
      fs.CreateFile(tmpFile);
      CopyAll(ms);
      var ok := fs.RemoveFile(dataFile);
      if ok {
        ok := fs.Rename(tmpFile, dataFile);
      }
    }

    /** The loop of `gc`: appends every message to the new, empty temporary file. */
    method CopyAll(ms: seq<Message>)
      requires Distinct(ms)
      requires tmpFile in fs.files && fs.files[tmpFile] == []
      modifies fs, ms`offset, ms`length
      ensures fs.files == old(fs.files)[tmpFile := Image(AsStored(Payloads(ms)))]
      ensures Placed(ms, AsStored(Payloads(ms)))
    {
      hide *;
      ghost var log := AsStored(Payloads(ms));
      ghost var files := fs.files;
      CopyStart(files, tmpFile, log);
      DistinctAre(ms);
      for i := 0 to |ms|
        invariant CopiedUpTo(files, fs.files, tmpFile, log, i)
        invariant forall j | 0 <= j < i ::
          ms[j].offset == ToUInt32(Start(log, j)) && ms[j].length == ToUInt32(|Serialize(log[j])|)
      {
        CopyNext(files, fs.files, tmpFile, log, i);
        fs.ContentIs(tmpFile);
        SerializedFrame(Payloads(ms), i);
        InsertInto(tmpFile, ms[i]);
      }
      CopyEnd(files, fs.files, tmpFile, log);
      PlacedIs(ms, log);
    }
  }

  lemma {:induction false} DistinctAre(ms: seq<Message>)
    requires Distinct(ms)
    ensures forall i, j | 0 <= i < j < |ms| :: ms[i] != ms[j]
  {
  }

  lemma {:induction false} SerializedFrame(log: seq<Payload>, i: nat)
    requires i < |log|
    ensures SerializedString(log[i]) == Serialize(AsStored(log)[i])
    ensures LittleEndian(|Serialize(AsStored(log)[i])|, 8) + Serialize(AsStored(log)[i]) == Frame(AsStored(log)[i])
  {
    assert Serialize(NO_PAYLOAD) == [];
    hide Serialize, LittleEndian;
  }

  lemma {:induction false} PlacedIs(ms: seq<Message>, log: seq<Payload>)
    requires |ms| == |log|
    requires forall j | 0 <= j < |ms| ::
      ms[j].offset == ToUInt32(Start(log, j)) && ms[j].length == ToUInt32(|Serialize(log[j])|)
    ensures Placed(ms, log)
  {
  }

  /** The record between two offsets holds the payload, as scanning sees it. */
  ghost predicate ScanAfter(f: Bytes, offset: nat, next: nat, p: Payload)
    requires offset <= next <= |f|
  {
    Scan(f[offset..]) == (Scan(f[next..]).0, (if p.valid == DEAD then [] else [p]) + Scan(f[next..]).1)
  }

  ghost predicate LoadedUpTo(f: Bytes, offset: nat, seen: seq<Payload>)
    requires offset <= |f|
  {
    Scan(f) == (Scan(f[offset..]).0, seen + Scan(f[offset..]).1)
  }

  lemma {:induction false} LoadStart(f: Bytes)
    ensures LoadedUpTo(f, 0, [])
  {
    assert f[0..] == f;
    hide Scan;
    ConcatNothing(Scan(f).1);
  }

  lemma {:induction false} LoadNext(f: Bytes, offset: nat, next: nat, seen: seq<Payload>, p: Payload)
    requires offset <= next <= |f| && LoadedUpTo(f, offset, seen) && ScanAfter(f, offset, next, p)
    ensures LoadedUpTo(f, next, seen + if p.valid == DEAD then [] else [p])
    ensures p.valid == DEAD ==> LoadedUpTo(f, next, seen)
  {
    hide Scan;
    ConcatNothing(seen);
    ConcatAssociates(seen, if p.valid == DEAD then [] else [p], Scan(f[next..]).1);
  }

  lemma {:induction false} LoadEnd(f: Bytes, offset: nat, seen: seq<Payload>)
    requires offset <= |f| && LoadedUpTo(f, offset, seen)
    ensures offset == |f| ==> Scan(f) == (true, seen)
    ensures Scan(f[offset..]) == (false, []) ==> Scan(f) == (false, seen)
  {
    if offset == |f| {
      ScanEnd(f);
    }
    hide Scan;
    ConcatNothing(seen);
  }

  lemma {:induction false} DistinctIs(ms: seq<Message>)
    requires forall i, j | 0 <= i < j < |ms| :: ms[i] != ms[j]
    ensures Distinct(ms)
  {
  }

  ghost predicate CopiedUpTo(was: map<Bytes, Bytes>, files: map<Bytes, Bytes>, t: Bytes, log: seq<Payload>, i: nat) {
    i <= |log| && files == was[t := Image(log[..i])]
  }

  lemma {:induction false} CopyStart(was: map<Bytes, Bytes>, t: Bytes, log: seq<Payload>)
    requires t in was && was[t] == []
    ensures CopiedUpTo(was, was, t, log, 0)
  {
    assert Image(log[..0]) == [];
  }

  lemma {:induction false} CopyNext(was: map<Bytes, Bytes>, files: map<Bytes, Bytes>, t: Bytes, log: seq<Payload>,
      i: nat)
    requires i < |log| && CopiedUpTo(was, files, t, log, i)
    ensures t in files && |files[t]| + 8 == Start(log, i)
    ensures CopiedUpTo(was, files[t := files[t] + Frame(log[i])], t, log, i + 1)
  {
    hide Image, Frame, Start;
    ImageSnoc(log[..i], log[i]);
    assert log[..i + 1] == log[..i] + [log[i]];
    StartIs(log, i);
  }

  lemma {:induction false} CopyEnd(was: map<Bytes, Bytes>, files: map<Bytes, Bytes>, t: Bytes, log: seq<Payload>)
    requires CopiedUpTo(was, files, t, log, |log|)
    ensures files == was[t := Image(log)]
  {
    assert log[..|log|] == log;
    hide Image;
  }

  lemma {:induction false} RenameOver(files: map<Bytes, Bytes>, t: Bytes, d: Bytes, v: Bytes)
    requires t != d
    ensures files[t := []][t := v] == files[t := v]
    ensures ((files[t := v] - {d}) - {t})[d := v] == files[d := v] - {t}
  {
  }

  lemma {:induction false} AppendTwice(s: Bytes, x: Bytes, y: Bytes)
    ensures Overwrite(Overwrite(s, |s|, x), |s| + |x|, y) == s + (x + y)
  {
  }

  lemma {:induction false} CutHead(f: Bytes, offset: nat)
    requires offset < |f| < offset + 8
    ensures Scan(f[offset..]) == (false, [])
  {
  }

  lemma {:induction false} CutBody(f: Bytes, offset: nat)
    requires offset + 8 <= |f| < offset + 8 + FromLittleEndian(f[offset..offset + 8])
    ensures Scan(f[offset..]) == (false, [])
  {
    assert f[offset..][..8] == f[offset..offset + 8];
    hide FromLittleEndian, Parse;
  }

  lemma {:induction false} WholeRecord(f: Bytes, offset: nat)
    requires offset + 8 <= |f| && offset + 8 + FromLittleEndian(f[offset..offset + 8]) <= |f|
    ensures var next := offset + 8 + FromLittleEndian(f[offset..offset + 8]);
            ScanAfter(f, offset, next, Parse(f[offset + 8..next]))
  {
    var t, n := f[offset..], FromLittleEndian(f[offset..offset + 8]);
    assert t[..8] == f[offset..offset + 8];
    assert t[8..8 + n] == f[offset + 8..offset + 8 + n];
    assert t[8 + n..] == f[offset + 8 + n..];
    hide FromLittleEndian, Parse;
  }

  lemma {:induction false} ScanEnd(f: Bytes)
    ensures Scan(f[|f|..]) == (true, [])
  {
  }
}
