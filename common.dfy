/**
 Small shared vocabulary: an optional value (standing for a pointer that may
 be NULL) and C strings (character sequences without a NUL terminator inside).
 */
module Common {

  /** A value that may be absent; `None` plays the part of a NULL pointer. */
  datatype Option<+T> = None | Some(value: T)

  /**
   A C string as seen through `char *`: everything before the terminating NUL,
   so it never contains a NUL character itself.
   */
  type CString = s: seq<char> | '\0' !in s witness []

  /** One byte of a file read as text: a character below 256, with no decoding. */
  type Byte = c: char | c as int < 256
}
