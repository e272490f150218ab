/** Machine-level values shared by every part of the server model: bytes,
    the fixed-width unsigned integers of the Windows headers, little-endian
    16-bit wire encoding, NUL-terminated strings held in fixed-size `char`
    arrays, and the `strcpy_s` copy that fills those arrays. */
module Bytes {

  /** One `char` of a buffer or packet field. */
  type Byte = b: int | 0 <= b < 256

  const U16_LIMIT: nat := 0x1_0000
  const U32_LIMIT: nat := 0x1_0000_0000

  /** `UINT16` */
  type U16 = x: int | 0 <= x < 0x1_0000
  /** `UINT32` and `DWORD` */
  type U32 = x: int | 0 <= x < 0x1_0000_0000

  /** Unsigned 32-bit addition as C++ performs it (wraps modulo 2^32). */
  function AddU32(a: U32, b: U32): (r: U32)
    ensures a + b < U32_LIMIT ==> r == a + b
    ensures a + b >= U32_LIMIT ==> r == a + b - U32_LIMIT
  {
    (a + b) % U32_LIMIT
  }

  /** Little-endian encoding of a `UINT16` (the wire order of an x86 server). */
  function LE16(x: U16): seq<Byte>
  {
    [x % 256, x / 256]
  }

  function ReadLE16(lo: Byte, hi: Byte): U16
  {
    lo + 256 * hi
  }

  /** `n` zero bytes: a field after `memset(field, 0, sizeof(field))`. */
  function Zeros(n: nat): (r: seq<Byte>)
    ensures |r| == n
    ensures forall i :: 0 <= i < n ==> r[i] == 0
  {
    seq(n, _ => 0)
  }

  // Solver hints. Dafny proves each of these with an empty body, but does
  // not always apply the fact where a proof needs it (sequences of
  // sequences, a field read back from its encoding). They state nothing
  // about the server; callers invoke them to put the fact in scope.

  lemma LE16RoundTrip(x: U16)
    ensures |LE16(x)| == 2 && ReadLE16(LE16(x)[0], LE16(x)[1]) == x
  {
  }

  lemma Assoc<T>(a: seq<T>, b: seq<T>, c: seq<T>)
    ensures a + (b + c) == (a + b) + c
  {
  }

  lemma AppendEmpty<T>(a: seq<T>)
    ensures a + [] == a
  {
  }

  lemma PrefixOfAppend<T>(a: seq<T>, b: seq<T>)
    ensures a <= a + b
  {
  }

  lemma TakeDrop<T>(s: seq<T>, n: nat)
    requires n <= |s|
    ensures s[..n] + s[n..] == s
  {
  }

  /** The characters of a C string: no NUL inside. */
  predicate NoNul(s: seq<Byte>)
  {
    forall i :: 0 <= i < |s| ==> s[i] != 0
  }

  type CString = s: seq<Byte> | NoNul(s)

  /** A `const char*` argument: the null pointer or a NUL-terminated string. */
  datatype CPtr = Null | Str(chars: CString)

  /** The string a `char` array holds when read as a C string: the bytes up to
      the first NUL. A field with no NUL at all reads as the whole field (the
      source would read past the end of the array; the model stops at it). */
  function CStr(field: seq<Byte>): (r: CString)
    ensures |r| <= |field|
  {
    if field == [] || field[0] == 0 then [] else [field[0]] + CStr(field[1..])
  }

  /** A pointer result that may be null. */
  datatype Option<T> = None | Some(value: T)

  /** Result of a `strcpy_s`: the new destination, or a runtime-constraint
      violation. A violation invokes the CRT's invalid-parameter handler,
      whose default action ends the process. */
  datatype Checked<T> = Ok(value: T) | Violation

  /** `strcpy_s(dest, sizeof(dest), src)`: refuses a null source or one that
      does not fit with its terminator; otherwise writes the characters and a
      NUL at the front and leaves the rest of the array as it was. */
  function StrcpyS(dest: seq<Byte>, src: CPtr): (r: Checked<seq<Byte>>)
    ensures r.Ok? <==> src.Str? && |src.chars| < |dest|
    ensures r.Ok? ==> |r.value| == |dest| && r.value[..|src.chars|] == src.chars
                      && r.value[|src.chars|] == 0
                      && r.value[|src.chars| + 1..] == dest[|src.chars| + 1..]
  {
    if src.Null? || |src.chars| >= |dest| then Violation
    else Ok(src.chars + [0] + dest[|src.chars| + 1..])
  }

  /** A NUL-terminated copy reads back as the string that was copied. */
  lemma {:induction false} CStrOfTerminated(s: CString, tail: seq<Byte>)
    ensures CStr(s + [0] + tail) == s
  {
    if s == [] {
      assert (s + [0] + tail)[0] == 0;
    } else {
      assert s[0] != 0;
      assert (s + [0] + tail)[1..] == s[1..] + [0] + tail;
      CStrOfTerminated(s[1..], tail);
    }
  }

  /** Setter round trip: reading a field back after a successful `strcpy_s`
      yields exactly the string that was copied in. */
  lemma StrcpySReadBack(dest: seq<Byte>, s: CString)
    requires |s| < |dest|
    ensures StrcpyS(dest, Str(s)).Ok?
    ensures CStr(StrcpyS(dest, Str(s)).value) == s
  {
    CStrOfTerminated(s, dest[|s| + 1..]);
  }

  /** A field that holds a NUL is its string, that NUL, and what follows. */
  lemma {:induction false} CStrSplit(field: seq<Byte>)
    ensures |CStr(field)| < |field| ==>
              field == CStr(field) + [0] + field[|CStr(field)| + 1..]
    ensures |CStr(field)| == |field| ==> field == CStr(field)
  {
    if field == [] || field[0] == 0 {
    } else {
      CStrSplit(field[1..]);
      assert field == [field[0]] + field[1..];
    }
  }

  /** Characters of a text literal as bytes (all literals in the source are ASCII). */
  function Ascii(s: string): (r: seq<Byte>)
    requires forall i :: 0 <= i < |s| ==> s[i] as int < 128
    ensures |r| == |s|
  {
    seq(|s|, i requires 0 <= i < |s| => s[i] as int)
  }
}
