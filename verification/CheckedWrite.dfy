/**
 Writing artifacts to disk under a checksum: a source is streamed in chunks of any size into a file and,
 through a tee, into a running digest. The hash itself is a parameter.
 */
module CheckedWrite {
  import opened Wrappers
  import opened Text

  type Hash = seq<byte> -> seq<byte>

  // ----- GNU checksum lines: "<hex digest> <file name>" -----

  function HexValue(c: char): (v: Option<int>)
    ensures v.Some? ==> 0 <= v.value < 16
  {
    if IsDigit(c) then Some(c as int - '0' as int)
    else if 'a' <= c <= 'f' then Some(c as int - 'a' as int + 10)
    else if 'A' <= c <= 'F' then Some(c as int - 'A' as int + 10)
    else None
  }

  function DecodeHex(s: string): Option<seq<byte>>
  {
    if s == "" then Some([])
    else if |s| == 1 then None
    else
      match (HexValue(s[0]), HexValue(s[1]), DecodeHex(s[2..]))
      case (Some(h), Some(l), Some(rest)) => Some([16 * h + l] + rest)
      case _ => None
  }

  function HexDigit(n: nat): char
    requires n < 16
  {
    "0123456789abcdef"[n]
  }

  function EncodeHex(bytes: seq<byte>): string
  {
    if bytes == [] then ""
    else [HexDigit(bytes[0] / 16), HexDigit(bytes[0] % 16)] + EncodeHex(bytes[1..])
  }

  function ParseGNUChecksum(text: string): Option<seq<byte>>
  {
    var i := Find(text, ' ');
    if i == |text| then None else DecodeHex(text[..i])
  }

  /** The hex digits are these 22 characters, in either case. */
  lemma HexValueExactly(c: char, n: nat)
    requires n < 16
    ensures HexValue(c) == Some(n) <==> c == "0123456789abcdef"[n] || c == "0123456789ABCDEF"[n]
  {
  }

  lemma HexValueOfDigit(n: nat)
    requires n < 16
    ensures HexValue(HexDigit(n)) == Some(n)
  {
  }

  lemma DecodePair(high: char, low: char, rest: string)
    requires HexValue(high).Some? && HexValue(low).Some? && DecodeHex(rest).Some?
    ensures DecodeHex([high, low] + rest) == Some([16 * HexValue(high).value + HexValue(low).value] + DecodeHex(rest).value)
  {
    assert ([high, low] + rest)[2..] == rest;
  }

  lemma DecodeOne(b: byte, rest: string)
    requires DecodeHex(rest).Some?
    ensures DecodeHex([HexDigit(b / 16), HexDigit(b % 16)] + rest) == Some([b] + DecodeHex(rest).value)
  {
    HexValueOfDigit(b / 16);
    HexValueOfDigit(b % 16);
    DecodePair(HexDigit(b / 16), HexDigit(b % 16), rest);
  }

  lemma {:induction false} DecodeOfEncode(bytes: seq<byte>)
    ensures DecodeHex(EncodeHex(bytes)) == Some(bytes)
  {
    if bytes != [] {
      DecodeOfEncode(bytes[1..]);
      DecodeOne(bytes[0], EncodeHex(bytes[1..]));
      assert bytes == [bytes[0]] + bytes[1..];
    }
  }

  lemma {:induction false} HexHasNoSpace(bytes: seq<byte>)
    ensures ' ' !in EncodeHex(bytes)
  {
    if bytes != [] {
      HexHasNoSpace(bytes[1..]);
      HexValueOfDigit(bytes[0] / 16);
      HexValueOfDigit(bytes[0] % 16);
    }
  }

  /** A checksum line for any file name parses back to the digest it was printed from. */
  lemma ChecksumLineRoundTrip(digest: seq<byte>, name: string)
    ensures ParseGNUChecksum(EncodeHex(digest) + " " + name) == Some(digest)
  {
    DecodeOfEncode(digest);
    HexHasNoSpace(digest);
    FindAt(EncodeHex(digest), ' ', name);
    var line := EncodeHex(digest) + " " + name;
    assert line == EncodeHex(digest) + [' '] + name;
    assert line[..|EncodeHex(digest)|] == EncodeHex(digest);
  }

  predicate AllHex(s: string)
  {
    forall i :: 0 <= i < |s| ==> HexValue(s[i]).Some?
  }

  lemma {:induction false} DecodesExactly(s: string)
    ensures DecodeHex(s).Some? <==> |s| % 2 == 0 && AllHex(s)
    ensures DecodeHex(s).Some? ==> 2 * |DecodeHex(s).value| == |s|
  {
    if |s| >= 2 {
      DecodesExactly(s[2..]);
      assert forall i :: 2 <= i < |s| ==> s[i] == s[2..][i - 2];
    }
  }

  /** A line is accepted exactly when the text before its first space is an even number of hex digits. */
  lemma ParsesExactly(text: string)
    ensures ParseGNUChecksum(text).Some?
            <==> ' ' in text && Find(text, ' ') % 2 == 0 && AllHex(text[..Find(text, ' ')])
  {
    DecodesExactly(text[..Find(text, ' ')]);
  }

  // ----- Streams and digests -----

  datatype Progress = More | Eof | Failed

  /**
   A byte stream that delivers data in chunks chosen by the environment and may break off. The end or an error
   comes with the last chunk or, with no bytes, after it.
   */
  class Stream {
    const data: seq<byte>
    var pos: nat

    constructor (data: seq<byte>)
      ensures this.data == data && pos == 0
    {
      this.data, pos := data, 0;
    }

    method Read() returns (chunk: seq<byte>, progress: Progress)
      requires pos <= |data|
      modifies this
      ensures old(pos) <= pos <= |data| && chunk == data[old(pos)..pos]
      ensures progress.More? ==> old(pos) < pos
      ensures progress.Eof? ==> pos == |data|
    {
      var start := pos;
      var n: int := *;
      if 0 < n <= |data| - pos {
        pos := pos + n;
      }
      chunk := data[start..pos];
      var ends: bool := *;
      if !ends && start < pos {
        progress := More;
      } else if pos == |data| {
        progress := Eof;
      } else {
        progress := Failed;
      }
    }
  }

  class Digest {
    const hash: Hash
    var fed: seq<byte>

    constructor (hash: Hash)
      ensures this.hash == hash && fed == []
    {
      this.hash, fed := hash, [];
    }

    method Write(chunk: seq<byte>)
      modifies this
      ensures fed == old(fed) + chunk
    {
      fed := fed + chunk;
    }

    function Sum(): seq<byte>
      reads this
    {
      hash(fed)
    }
  }

  /** An artifact source: reading it feeds every delivered byte to the digest as well. */
  class Source {
    const stream: Stream
    const digest: Digest
    const wanted: seq<byte>

    constructor (stream: Stream, digest: Digest, wanted: seq<byte>)
      ensures this.stream == stream && this.digest == digest && this.wanted == wanted
    {
      this.stream, this.digest, this.wanted := stream, digest, wanted;
    }

    ghost predicate Valid()
      reads stream, digest
    {
      stream.pos <= |stream.data| && digest.fed == stream.data[..stream.pos]
    }

    ghost predicate Unread()
      reads stream, digest
    {
      stream.pos == 0 && digest.fed == []
    }

    method Read() returns (chunk: seq<byte>, progress: Progress)
      requires Valid()
      modifies stream, digest
      ensures Valid()
      ensures old(stream.pos) <= stream.pos && chunk == stream.data[old(stream.pos)..stream.pos]
      ensures progress.More? ==> old(stream.pos) < stream.pos
      ensures progress.Eof? ==> stream.pos == |stream.data|
    {
      chunk, progress := stream.Read();
      digest.Write(chunk);
    }

    predicate VerifyChecksum()
      reads digest
    {
      digest.Sum() == wanted
    }
  }

  /** Wraps a stream with a checksum line; fails when the line does not parse. */
  method WithChecksum(stream: Stream, digest: Digest, line: string) returns (r: Option<Source>)
    ensures r.Some? <==> ParseGNUChecksum(line).Some?
    ensures r.Some? ==> fresh(r.value) && r.value.stream == stream && r.value.digest == digest
                        && r.value.wanted == ParseGNUChecksum(line).value
  {
    match ParseGNUChecksum(line)
    case None => r := None;
    case Some(wanted) =>
      var source := new Source(stream, digest, wanted);
      r := Some(source);
  }

  // ----- Files -----

  /** The files, and whether any step of the environment has failed: a file operation or the reading of a stream. */
  class FileSystem {
    var files: map<string, seq<byte>>
    ghost var faulted: bool

    constructor (files: map<string, seq<byte>>)
      ensures this.files == files && !faulted
    {
      this.files, faulted := files, false;
    }

    /** Opens a file for reading, which fails if there is none. */
    method Open(path: string) returns (ok: bool)
      modifies this`faulted
      ensures ok ==> path in files
      ensures !ok ==> path !in files || faulted
      ensures old(faulted) ==> faulted
    {
      ok := *;
      if path !in files {
        ok := false;
      } else if !ok {
        faulted := true;
      }
    }

    /** Removes and re-creates path as an empty file; a failure may leave it as it was, absent or empty. */
    method Recreate(path: string) returns (ok: bool)
      modifies this
      ensures files - {path} == old(files) - {path}
      ensures ok ==> path in files && files[path] == []
      ensures faulted <==> old(faulted) || !ok
    {
      var removed: bool := *;
      if removed {
        files := files - {path};
      }
      ok := *;
      if ok {
        files := files[path := []];
      } else {
        faulted := true;
      }
    }

    /** Appends a chunk; a failure may have written part of it. */
    method Append(path: string, chunk: seq<byte>) returns (ok: bool)
      requires path in files
      modifies this
      ensures path in files && files - {path} == old(files) - {path}
      ensures ok ==> files[path] == old(files[path]) + chunk
      ensures faulted <==> old(faulted) || !ok
    {
      var n: int := *;
      if 0 <= n < |chunk| {
        files := files[path := files[path] + chunk[..n]];
        faulted := true;
        return false;
      }
      files := files[path := files[path] + chunk];
      return true;
    }
  }

  lemma SameButPath(before: map<string, seq<byte>>, after: map<string, seq<byte>>, path: string)
    requires after - {path} == before - {path} && path in after
    ensures after == before[path := after[path]]
  {
    forall p | p in after && p != path
      ensures p in before && after[p] == before[p]
    {
      assert p in after - {path} && (after - {path})[p] == (before - {path})[p];
    }
    forall p | p in before && p != path
      ensures p in after
    {
      assert p in before - {path};
    }
  }

  method InstallFile(fs: FileSystem, path: string, src: Source) returns (ok: bool)
    requires src.Unread()
    modifies fs, src.stream, src.digest
    ensures fs.files - {path} == old(fs.files) - {path}
    ensures src.Valid()
    ensures ok ==> fs.files == old(fs.files)[path := src.stream.data] && src.digest.fed == src.stream.data
    ensures fs.faulted <==> old(fs.faulted) || !ok
  {
    ok := fs.Recreate(path);
    if !ok { return; }
    while true
      invariant src.Valid()
      invariant path in fs.files && fs.files - {path} == old(fs.files) - {path}
      invariant fs.files[path] == src.stream.data[..src.stream.pos]
      invariant fs.faulted == old(fs.faulted)
      decreases |src.stream.data| - src.stream.pos
    {
      ghost var before := src.stream.pos;
      var chunk, progress := src.Read();
      assert src.stream.data[..before] + chunk == src.stream.data[..src.stream.pos];
      ok := fs.Append(path, chunk);
      if !ok || progress.Failed? {
        fs.faulted := true;
        return false;
      }
      if progress.Eof? {
        assert src.stream.data[..src.stream.pos] == src.stream.data;
        SameButPath(old(fs.files), fs.files, path);
        return true;
      }
    }
  }

  // ----- Upgrade -----

  datatype Outcome = Done | Unreadable | NotInstalled | ChecksumMismatch

  /** Hashes the installed file chunk by chunk. */
  method ChecksumMatch(fs: FileSystem, path: string, src: Source) returns (r: Option<bool>)
    modifies fs`faulted
    ensures r.Some? ==> path in fs.files && (r.value <==> src.digest.hash(fs.files[path]) == src.wanted)
    ensures r.None? ==> path !in fs.files || fs.faulted
    ensures old(fs.faulted) ==> fs.faulted
  {
    var isOpen := fs.Open(path);
    if !isOpen {
      return None;
    }
    var file := new Stream(fs.files[path]);
    var digest := new Digest(src.digest.hash);
    while true
      invariant fresh(file) && fresh(digest)
      invariant old(fs.faulted) ==> fs.faulted
      invariant file.pos <= |file.data| && digest.fed == file.data[..file.pos]
      decreases |file.data| - file.pos
    {
      var chunk, progress := file.Read();
      digest.Write(chunk);
      if progress.Failed? {
        fs.faulted := true;
        return None;
      }
      if progress.Eof? {
        assert digest.fed == file.data;
        return Some(digest.Sum() == src.wanted);
      }
    }
  }

  /**
   Leaves a file that already has the expected digest alone, and otherwise replaces it. Success means that the
   file at path has the expected digest, and without a fault it comes exactly if the old or the delivered content has.
   */
  method Upgrade(fs: FileSystem, path: string, src: Source) returns (r: Outcome)
    requires src.Unread()
    modifies fs, src.stream, src.digest
    ensures fs.files - {path} == old(fs.files) - {path}
    ensures r.Done? ==> path in fs.files && src.digest.hash(fs.files[path]) == src.wanted
    ensures path !in old(fs.files) ==> r.Unreadable?
    ensures r.Unreadable? ==> fs.files == old(fs.files)
    ensures path in old(fs.files) && src.digest.hash(old(fs.files)[path]) == src.wanted ==> fs.files == old(fs.files)
    ensures path in old(fs.files) && src.digest.hash(old(fs.files)[path]) != src.wanted ==>
              (r.Done? || r.ChecksumMismatch? ==> fs.files == old(fs.files)[path := src.stream.data])
    ensures r.ChecksumMismatch? ==> src.digest.hash(src.stream.data) != src.wanted
    ensures path in old(fs.files) && !fs.faulted ==>
              r == if src.digest.hash(old(fs.files)[path]) == src.wanted || src.digest.hash(src.stream.data) == src.wanted
                   then Done else ChecksumMismatch
    ensures old(fs.faulted) ==> fs.faulted
  {
    var match_ := ChecksumMatch(fs, path, src);
    if match_.None? {
      return Unreadable;
    }
    if !match_.value {
      var ok := InstallFile(fs, path, src);
      if !ok {
        return NotInstalled;
      }
      if !src.VerifyChecksum() {
        return ChecksumMismatch;
      }
    }
    return Done;
  }

  /** After a successful upgrade, upgrading again to the same expected digest writes nothing. */
  method UpgradeTwice(fs: FileSystem, path: string, first: Source, second: Source)
    returns (r: Outcome, again: Option<Outcome>)
    requires first.Unread() && second.Unread()
    requires {first.stream, first.digest} !! {second.stream, second.digest}
    requires first.wanted == second.wanted && first.digest.hash == second.digest.hash
    modifies fs, first.stream, first.digest, second.stream, second.digest
    ensures r.Done? ==> path in old(fs.files) && path in fs.files && first.digest.hash(fs.files[path]) == first.wanted
    ensures r.Done? ==> fs.files == old(fs.files) || fs.files == old(fs.files)[path := first.stream.data]
    ensures again.Some? <==> r.Done?
    ensures again.Some? && !fs.faulted ==> again.value.Done?
  {
    again := None;
    r := Upgrade(fs, path, first);
    if r.Done? {
      ghost var after := fs.files;
      var secondOutcome := Upgrade(fs, path, second);
      assert fs.files == after;
      again := Some(secondOutcome);
    }
  }

  // ----- Download with three attempts -----

  /** What a server sends for one request: the bytes and the checksum line. */
  datatype Offer = Offer(data: seq<byte>, line: string)

  /** A server whose answers, or failures to answer, are fixed by the request number. */
  class Server {
    const offers: nat -> Option<Offer>
    var served: nat

    constructor (offers: nat -> Option<Offer>)
      ensures this.offers == offers && served == 0
    {
      this.offers, served := offers, 0;
    }

    method Get(hash: Hash) returns (r: Option<Source>)
      modifies this
      ensures served == old(served) + 1
      ensures r.Some? ==>
                && fresh(r.value) && fresh(r.value.stream) && fresh(r.value.digest)
                && r.value.Unread() && r.value.digest.hash == hash
                && offers(served - 1).Some?
                && r.value.stream.data == offers(served - 1).value.data
                && ParseGNUChecksum(offers(served - 1).value.line) == Some(r.value.wanted)
      ensures r.None? ==> offers(served - 1).None? || ParseGNUChecksum(offers(served - 1).value.line).None?
    {
      var offer := offers(served);
      served := served + 1;
      if offer.None? {
        return None;
      }
      var stream := new Stream(offer.value.data);
      var digest := new Digest(hash);
      r := WithChecksum(stream, digest, offer.value.line);
    }
  }

  /** The offer's own checksum line vouches for its data. */
  ghost predicate Vouches(offer: Option<Offer>, hash: Hash)
  {
    offer.Some? && ParseGNUChecksum(offer.value.line) == Some(hash(offer.value.data))
  }

  /** The file holds one offer in full, and that offer vouches for itself. */
  ghost predicate Holds(content: seq<byte>, offer: Option<Offer>, hash: Hash)
  {
    offer.Some? && content == offer.value.data && ParseGNUChecksum(offer.value.line) == Some(hash(content))
  }

  method DownloadFileTo(fs: FileSystem, path: string, server: Server, hash: Hash) returns (ok: bool)
    modifies fs, server
    ensures server.served == old(server.served) + 1
    ensures fs.files - {path} == old(fs.files) - {path}
    ensures ok ==> path in fs.files && Holds(fs.files[path], server.offers(server.served - 1), hash)
    ensures !fs.faulted ==> (ok <==> Vouches(server.offers(old(server.served)), hash))
    ensures old(fs.faulted) ==> fs.faulted
  {
    var src := server.Get(hash);
    if src.None? {
      return false;
    }
    ok := InstallFile(fs, path, src.value);
    if ok {
      ok := src.value.VerifyChecksum();
    }
  }

  /**
   At most three attempts; success means the file is exactly what the last of them delivered. Without a fault it
   comes with the first of the three offers that vouches for itself, and exactly if there is one.
   */
  method InstallFromSource(fs: FileSystem, path: string, server: Server, hash: Hash) returns (ok: bool)
    modifies fs, server
    ensures old(server.served) < server.served <= old(server.served) + 3
    ensures !ok ==> server.served == old(server.served) + 3
    ensures fs.files - {path} == old(fs.files) - {path}
    ensures ok ==> path in fs.files && Holds(fs.files[path], server.offers(server.served - 1), hash)
    ensures !fs.faulted ==>
              && (ok <==> exists i :: old(server.served) <= i < old(server.served) + 3 && Vouches(server.offers(i), hash))
              && forall i :: old(server.served) <= i < server.served - 1 ==> !Vouches(server.offers(i), hash)
    ensures old(fs.faulted) ==> fs.faulted
  {
    ok := false;
    for i := 0 to 3
      invariant !ok && server.served == old(server.served) + i
      invariant fs.files - {path} == old(fs.files) - {path}
      invariant old(fs.faulted) ==> fs.faulted
      invariant !fs.faulted ==>
                  forall j :: old(server.served) <= j < server.served ==> !Vouches(server.offers(j), hash)
    {
      ok := DownloadFileTo(fs, path, server, hash);
      if ok {
        assert !fs.faulted ==> Vouches(server.offers(server.served - 1), hash);
        break;
      }
    }
  }
}
