/**
 * libc's tolower and toupper (lib/libc/port/locale/tolower.c): a value that
 * is not an unsigned char is returned as it is, any other is looked up in
 * the locale's 256-entry translation table.  The tables belong to the
 * locale and are given as inputs.
 */
module CType {

  /** A C int. */
  type int32 = x: int | -0x8000_0000 <= x < 0x8000_0000

  /** A locale's translation table, indexed by unsigned char. */
  type Table = t: seq<int32> | |t| == 256 witness seq(256, k => 0)

  const EOF: int32 := -1

  /** (unsigned)c: the int read as a 32-bit unsigned value. */
  function Unsigned(c: int32): (u: nat)
    ensures u < 0x1_0000_0000
    ensures c >= 0 ==> u == c
    ensures c < 0 ==> u == c + 0x1_0000_0000
  {
    c % 0x1_0000_0000
  }

  /** The guard reads a negative int as a large unsigned one, so it admits exactly the unsigned chars. */
  lemma GuardAdmitsUnsignedChars(c: int32)
    ensures Unsigned(c) <= 255 <==> 0 <= c <= 255
  {
  }

  /** tolower(c) with the locale's lower-case table. */
  function ToLower(c: int32, lower: Table): (r: int32)
    ensures 0 <= c <= 255 ==> r == lower[c]
    ensures (c < 0 || c > 255) ==> r == c
  {
    if Unsigned(c) > 255 then c else lower[c]
  }

  /** toupper(c) with the locale's upper-case table. */
  function ToUpper(c: int32, upper: Table): (r: int32)
    ensures 0 <= c <= 255 ==> r == upper[c]
    ensures (c < 0 || c > 255) ==> r == c
  {
    if Unsigned(c) > 255 then c else upper[c]
  }

  /** EOF passes through both unchanged, whatever the locale. */
  lemma EofUnchanged(lower: Table, upper: Table)
    ensures ToLower(EOF, lower) == EOF && ToUpper(EOF, upper) == EOF
  {
  }

  /** A table that maps every unsigned char to a fixed point of itself makes the conversion idempotent. */
  lemma ToLowerIdempotent(lower: Table, c: int32)
    requires forall k :: 0 <= k < 256 ==> (0 <= lower[k] < 256 ==> lower[lower[k]] == lower[k])
    ensures ToLower(ToLower(c, lower), lower) == ToLower(c, lower)
  {
    if 0 <= c <= 255 {
      var r := lower[c];
      if 0 <= r <= 255 {
        assert lower[r] == r;
      }
    }
  }

  /** Upper-casing after lower-casing gives back an upper-case letter when the tables invert each other on it. */
  lemma CaseRoundTrip(lower: Table, upper: Table, c: int32)
    requires 0 <= c <= 255 && 0 <= lower[c] <= 255 && upper[lower[c]] == c
    ensures ToUpper(ToLower(c, lower), upper) == c
  {
  }
}
