/**
 * The cix wire format: the 4-byte length field as it sits in memory, one
 * byte of command and the 59-byte filename buffer, 64 bytes in all,
 * followed by the payload. This field order is the one that fills 64
 * bytes without padding. The length field travels in network (big-endian)
 * order when the sender wrote it through htonl.
 */
module Wire {
  newtype byte = x: int | 0 <= x < 256

  /** CIX_FILENAME_SIZE: the filename buffer, terminator included. */
  const FilenameSize: nat := 59
  const HeaderSize: nat := 64
  const ChunkSize: nat := 1024

  // cix_command codes, in the order of the protocol's enumeration
  const ERROR: byte := 0
  const EXIT: byte := 1
  const GET: byte := 2
  const HELP: byte := 3
  const LS: byte := 4
  const PUT: byte := 5
  const RM: byte := 6
  const FILE: byte := 7
  const LSOUT: byte := 8
  const ACK: byte := 9
  const NAK: byte := 10

  // errno values a host reports (Linux numbering)
  const ENOENT: nat := 2
  const EACCES: nat := 13
  const EISDIR: nat := 21

  const Word: nat := 0x1_0000_0000

  /** htonl as it lands in memory: the four bytes of x, most significant first. */
  function Htonl(x: nat): (b: seq<byte>)
    requires x < Word
    ensures |b| == 4
  {
    [(x / 0x100 / 0x100 / 0x100) as byte, (x / 0x100 / 0x100 % 0x100) as byte, (x / 0x100 % 0x100) as byte,
     (x % 0x100) as byte]
  }

  /** ntohl read from memory: the four bytes as a big-endian number. */
  function Ntohl(b: seq<byte>): (x: nat)
    requires |b| == 4
    ensures x < Word
  {
    ((b[0] as nat * 0x100 + b[1] as nat) * 0x100 + b[2] as nat) * 0x100 + b[3] as nat
  }

  /** The field written without htonl on a little-endian host: least significant byte first. */
  function HostOrder(x: nat): (b: seq<byte>)
    requires x < Word
    ensures |b| == 4
  {
    [(x % 0x100) as byte, (x / 0x100 % 0x100) as byte, (x / 0x100 / 0x100 % 0x100) as byte,
     (x / 0x100 / 0x100 / 0x100) as byte]
  }

  /** Reading the big-endian field back gives the number written. */
  lemma NtohlHtonl(x: nat)
    requires x < Word
    ensures Ntohl(Htonl(x)) == x
  {
    var q1 := x / 0x100;
    var q2 := q1 / 0x100;
    var q3 := q2 / 0x100;
    assert x == q1 * 0x100 + x % 0x100;
    assert q1 == q2 * 0x100 + q1 % 0x100;
    assert q2 == q3 * 0x100 + q2 % 0x100;
    assert q3 < 0x100;
  }

  /** Every 4-byte field is the htonl of its ntohl. */
  lemma HtonlNtohl(b: seq<byte>)
    requires |b| == 4
    ensures Htonl(Ntohl(b)) == b
  {
    var top := b[0] as nat * 0x100 + b[1] as nat;
    var upper := top * 0x100 + b[2] as nat;
    var x := upper * 0x100 + b[3] as nat;
    assert x == Ntohl(b);
    DivideOut(upper, b[3] as nat);
    DivideOut(top, b[2] as nat);
    DivideOut(b[0] as nat, b[1] as nat);
  }

  lemma DivideOut(q: nat, r: nat)
    requires r < 0x100
    ensures (q * 0x100 + r) / 0x100 == q && (q * 0x100 + r) % 0x100 == r
  {
  }

  /** A field written without htonl reads back byte-swapped. */
  lemma NtohlHostOrder(x: nat)
    requires x < Word
    ensures Ntohl(HostOrder(x)) == Ntohl([Htonl(x)[3], Htonl(x)[2], Htonl(x)[1], Htonl(x)[0]])
    ensures 0 < x < 0x100 ==> Ntohl(HostOrder(x)) == x * 0x100_0000
  {
  }

  /** Truncation to 32 bits leaves a value that fits alone. */
  lemma Fits(x: nat)
    requires x < Word
    ensures x % Word == x
  {
  }

  /** The conversion to int32_t: values from 2^31 up are negative. */
  function Signed(x: nat): (v: int)
    requires x < Word
    ensures -0x8000_0000 <= v < 0x8000_0000
    ensures v >= 0 ==> v == x
  {
    if x < 0x8000_0000 then x else x - Word
  }

  /** How many bytes a loop `for (int i = 0; i < n;)` runs over: none for a negative n. */
  function Count(v: int): nat
  {
    if v < 0 then 0 else v
  }

  // ---------------------------------------------------------------------
  // Header
  // ---------------------------------------------------------------------

  /** cix_header, with the length field as the bytes it holds in memory. */
  datatype Header = Header(command: byte, nbytes: seq<byte>, filename: string)

  predicate ByteChar(c: char)
  {
    c as int < 256
  }

  predicate ByteText(s: string)
  {
    forall i :: 0 <= i < |s| ==> ByteChar(s[i])
  }

  predicate WfHeader(h: Header)
  {
    |h.nbytes| == 4 && |h.filename| == FilenameSize && ByteText(h.filename)
  }

  function Zeros(n: nat): (z: string)
    ensures |z| == n && forall i :: 0 <= i < n ==> z[i] == '\0'
  {
    seq(n, _ => '\0')
  }

  /** A header after memset to zero and the command set. */
  function Zeroed(command: byte): (h: Header)
    ensures WfHeader(h) && h.command == command && Ntohl(h.nbytes) == 0
    ensures forall i :: 0 <= i < FilenameSize ==> h.filename[i] == '\0'
  {
    Header(command, [0, 0, 0, 0], Zeros(FilenameSize))
  }

  /** The buffer read as a C string: up to the first NUL, or all of it when there is none. */
  function CString(f: string): (s: string)
    ensures |s| <= |f| && s == f[..|s|]
    ensures '\0' !in s
    ensures |s| < |f| ==> f[|s|] == '\0'
  {
    if f == [] || f[0] == '\0' then "" else [f[0]] + CString(f[1..])
  }

  /**
   * strncpy from c_str() into the filename buffer: the name up to its first
   * NUL, cut at 59 characters, the rest of the buffer zero.
   */
  function FilenameField(name: string): (f: string)
    ensures |f| == FilenameSize
    ensures var c := CString(name);
      (forall i :: 0 <= i < |c| && i < FilenameSize ==> f[i] == c[i]) &&
      (forall i :: |c| <= i < FilenameSize ==> f[i] == '\0')
  {
    var c := CString(name);
    if |c| >= FilenameSize then c[..FilenameSize]
    else c + Zeros(FilenameSize - |c|)
  }

  /** A text without NUL is its own C string. */
  lemma {:induction false} CStringWhole(s: string)
    requires '\0' !in s
    ensures CString(s) == s
  {
    if s != [] {
      assert forall c :: c in s[1..] ==> c in s;
      CStringWhole(s[1..]);
    }
  }

  /** A name that fits with its terminator and holds no NUL comes back whole from the buffer. */
  lemma {:induction false} CStringOfField(name: string)
    requires |name| < FilenameSize && '\0' !in name
    ensures CString(FilenameField(name)) == name
  {
    CStringWhole(name);
    var f := FilenameField(name);
    assert f[..|name|] == name;
    CStringPrefix(f, |name|);
  }

  /** A C string is the run up to its first NUL. */
  lemma {:induction false} CStringPrefix(f: string, n: nat)
    requires n < |f| && f[n] == '\0' && '\0' !in f[..n]
    ensures CString(f) == f[..n]
    decreases n
  {
    if n > 0 {
      assert f[0] in f[..n];
      assert f[1..][..n - 1] == f[1..n];
      assert forall c :: c in f[1..][..n - 1] ==> c in f[..n];
      CStringPrefix(f[1..], n - 1);
      assert [f[0]] + f[1..n] == f[..n];
    }
  }

  /** A name that fits the filename buffer with its terminator: it is read back whole. */
  predicate Sendable(name: string)
  {
    |name| < FilenameSize && '\0' !in name && ByteText(name)
  }

  /** The header a client fills: zeroed, the command set, the name copied in, the length through htonl. */
  function Request(command: byte, name: string, size: nat): (h: Header)
    requires size < Word && ByteText(name)
    ensures WfHeader(h) && h.command == command && Ntohl(h.nbytes) == size
    ensures |name| < FilenameSize && '\0' !in name ==> CString(h.filename) == name
  {
    var f := FilenameField(name);
    assert ByteText(f) by {
      var c := CString(name);
      assert c == name[..|c|];
      forall i | 0 <= i < |f| ensures ByteChar(f[i]) {
        if i < |c| {
          assert f[i] == name[i];
        }
      }
    }
    NtohlHtonl(size);
    assert |name| < FilenameSize && '\0' !in name ==> CString(f) == name by {
      if |name| < FilenameSize && '\0' !in name {
        CStringOfField(name);
      }
    }
    Header(command, Htonl(size), f)
  }

  // ---------------------------------------------------------------------
  // The 64 bytes on the wire
  // ---------------------------------------------------------------------

  function CharBytes(s: string): (b: seq<byte>)
    requires ByteText(s)
    ensures |b| == |s| && forall i :: 0 <= i < |s| ==> b[i] as int == s[i] as int
  {
    seq(|s|, i requires 0 <= i < |s| => s[i] as int as byte)
  }

  function ByteChars(b: seq<byte>): (s: string)
    ensures |s| == |b| && ByteText(s) && forall i :: 0 <= i < |b| ==> s[i] as int == b[i] as int
  {
    seq(|b|, i requires 0 <= i < |b| => b[i] as int as char)
  }

  /** The header as sent: length field, command byte, filename buffer. */
  function Encode(h: Header): (b: seq<byte>)
    requires WfHeader(h)
    ensures |b| == HeaderSize && b[..4] == h.nbytes && b[4] == h.command
  {
    h.nbytes + [h.command] + CharBytes(h.filename)
  }

  /** The header as received from 64 bytes. */
  function Decode(b: seq<byte>): (h: Header)
    requires |b| == HeaderSize
    ensures WfHeader(h) && h.nbytes == b[..4] && h.command == b[4]
  {
    Header(b[4], b[..4], ByteChars(b[5..]))
  }

  /** Decoding what was encoded gives the header back. */
  lemma DecodeEncode(h: Header)
    requires WfHeader(h)
    ensures Decode(Encode(h)) == h
  {
    var b := Encode(h);
    assert b[5..] == CharBytes(h.filename);
    assert ByteChars(b[5..]) == h.filename;
  }

  /** Encoding what was decoded gives the bytes back. */
  lemma EncodeDecode(b: seq<byte>)
    requires |b| == HeaderSize
    ensures Encode(Decode(b)) == b
  {
    var h := Decode(b);
    assert CharBytes(h.filename) == b[5..];
    assert b == b[..4] + [b[4]] + b[5..];
  }
}
