/** Byte strings, status codes and the argument checks shared by every layer
    (include/kv.h, the validators of src/kv.c). */
module Common {

  type byte = x: int | 0 <= x < 256
  type bytes = seq<byte>

  datatype Option<+T> = None | Some(value: T)

  const NUL: byte := 0
  const TAB: byte := 9
  const NL: byte := 10
  const CR: byte := 13
  const SPACE: byte := 32

  const MAX_KEY_LEN: nat := 256
  const MAX_VALUE_LEN: nat := 4096
  const INT64_MIN: int := -0x8000_0000_0000_0000
  const INT64_MAX: int := 0x7FFF_FFFF_FFFF_FFFF
  const UINT64_MAX: nat := 0xFFFF_FFFF_FFFF_FFFF

  /** The KV_OK / KV_ERR_* codes. */
  datatype Status =
    | Ok
    | NotFound
    | Internal
    | InvalidParam
    | KeyTooLong
    | ValTooLong
    | EmptyKey
    | KeyWhitespace
    | CapacityFull
    | BudgetExceeded
    | Io
    | Again
    | WrongType

  /** A C string: the bytes before its terminator, so none of them is NUL. */
  predicate CString(s: bytes) {
    NUL !in s
  }

  predicate Int64(d: int) {
    INT64_MIN <= d <= INT64_MAX
  }

  /** isspace in the C locale. */
  predicate IsSpace(c: byte) {
    c == SPACE || 9 <= c <= 13
  }

  /** validate_key on a C string, checks in the source's order. */
  function ValidateKey(key: bytes): Status {
    if |key| == 0 then EmptyKey
    else if |key| > MAX_KEY_LEN then KeyTooLong
    else if exists c | c in key :: IsSpace(c) then KeyWhitespace
    else Ok
  }

  /** validate_value on a C string. */
  function ValidateValue(value: bytes): Status {
    if |value| > MAX_VALUE_LEN then ValTooLong else Ok
  }

  predicate ValidKey(key: bytes) {
    CString(key) && ValidateKey(key) == Ok
  }

  predicate ValidValue(value: bytes) {
    CString(value) && ValidateValue(value) == Ok
  }

  /** strchr / memchr: the first position of `c`, or the length when absent. */
  function IndexOf(s: bytes, c: byte): (i: nat)
    ensures i <= |s|
    ensures i < |s| ==> s[i] == c
    ensures c !in s[..i]
  {
    if s == [] || s[0] == c then 0
    else
      var i := 1 + IndexOf(s[1..], c);
      assert s[..i] == [s[0]] + s[1..][..i - 1];
      i
  }

  /** The first position of `c` is the only one with nothing before it. */
  lemma IndexOfUnique(s: bytes, c: byte, i: nat)
    requires i <= |s| && c !in s[..i] && (i < |s| ==> s[i] == c)
    ensures IndexOf(s, c) == i
  {
    var j := IndexOf(s, c);
    assert forall k | 0 <= k < i :: s[k] == s[..i][k] != c;
    assert forall k | 0 <= k < j :: s[k] == s[..j][k] != c;
  }

  /** What C code sees of a buffer: the bytes before the first NUL. */
  function CStr(s: bytes): (r: bytes)
    ensures CString(r)
    ensures r <= s
    ensures CString(s) ==> r == s
  {
    s[..IndexOf(s, NUL)]
  }
}
