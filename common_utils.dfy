/**
  The GUI's title shortener (common/src/utils.rs). Rust measures and slices strings in
  bytes; here a string is a sequence of characters, each standing for one byte.
*/
module CommonUtils {

  /**
    `truncate_string`: a text of at most `maxLength` characters is returned unchanged;
    a longer one keeps its first `maxLength - 1` characters, followed by an ellipsis of
    three dots. With `maxLength == 0` and a non-empty text, `max_length - 1` underflows
    and the program panics, so that call is excluded.
  */
  function TruncateString(s: string, maxLength: nat): (r: string)
    requires |s| <= maxLength || maxLength >= 1
    ensures |s| <= maxLength ==> r == s
    ensures |s| > maxLength ==> |r| == maxLength + 2 && r[|r| - 3..] == "..."
    ensures |s| > maxLength ==> r[..|r| - 3] == s[..maxLength - 1]
  {
    if |s| <= maxLength then s else s[..maxLength - 1] + "..."
  }

  /** Without its ellipsis, the result is always a prefix of the input. */
  lemma TruncatedIsPrefix(s: string, maxLength: nat)
    requires |s| <= maxLength || maxLength >= 1
    ensures var r := TruncateString(s, maxLength);
      r <= s || (|r| >= 3 && r[..|r| - 3] <= s && r[|r| - 3..] == "...")
  {
  }

  /**
    The ellipsis is added on top of `maxLength - 1` characters, so a text just one
    character over the limit comes back one character longer than it was.
  */
  lemma TruncationCanLengthen(s: string, maxLength: nat)
    requires maxLength >= 1 && |s| == maxLength + 1
    ensures |TruncateString(s, maxLength)| == |s| + 1
  {
  }
}
