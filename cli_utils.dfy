/**
  The CLI's value helpers: cli/src/cmds/utils.rs and its earlier copy cli/src/cmd/utils.rs,
  whose `format_metadata_value` and `parse_offset` are the same code. Strings are sequences
  of characters, each standing for one byte.
*/
module CliUtils {
  import opened Wrappers
  import opened Mpris
  import opened RustText

  /** The metadata variants that hold an integer. */
  predicate IsInteger(v: MetadataValue) {
    v.I16? || v.I32? || v.I64? || v.U8? || v.U16? || v.U32? || v.U64?
  }

  function IntegerOf(v: MetadataValue): int
    requires IsInteger(v)
  {
    match v
    case I16(n) => n
    case I32(n) => n
    case I64(n) => n
    case U8(n) => n
    case U16(n) => n
    case U32(n) => n
    case U64(n) => n
  }

  /**
    `format_metadata_value`: a string is shown as it is, an integer in decimal (so that it
    reads back as the same number), a boolean as `true`/`false`, and an unsupported value
    as `unsupported`.
  */
  function FormatMetadataValue(v: MetadataValue): (r: string)
    ensures v.String? ==> r == v.text
    ensures IsInteger(v) ==> ParseDecimal(r) == Some(IntegerOf(v))
    ensures IsInteger(v) ==> (r[0] == '-' <==> IntegerOf(v) < 0)
    ensures IsInteger(v) && IntegerOf(v) != 0 ==> r[if IntegerOf(v) < 0 then 1 else 0] != '0'
    ensures IsInteger(v) && IntegerOf(v) == 0 ==> r == "0"
    ensures v.Bool? ==> r == (if v.flag then "true" else "false")
    ensures v.Unsupported? ==> r == "unsupported"
  {
    match v
    case String(text) => text
    case I16(n) => Decimal(n)
    case I32(n) => Decimal(n)
    case I64(n) => Decimal(n)
    case U8(n) => Decimal(n)
    case U16(n) => Decimal(n)
    case U32(n) => Decimal(n)
    case U64(n) => Decimal(n)
    case Bool(b) => if b then "true" else "false"
    case Unsupported => "unsupported"
  }

  /** `to_string` of an integer, with the facts about it that the formatter promises. */
  function Decimal(n: int): (r: string)
    ensures ParseDecimal(r) == Some(n)
    ensures r[0] == '-' <==> n < 0
    ensures n != 0 ==> r[if n < 0 then 1 else 0] != '0'
    ensures n == 0 ==> r == "0"
  {
    DecimalRoundTrip(n);
    DecimalCanonical(n);
    DecimalString(n)
  }

  /**
    `parse_offset`: the argument without its last character (the sign suffix the caller
    looked at), given to the floating-point parser `parseF64`; a parse error is reported
    with a prefix. An empty argument makes `arg.len() - 1` underflow and the program panic,
    so that call is excluded.
  */
  function ParseOffset<F>(arg: string, parseF64: string -> Result<F, string>): (r: Result<F, string>)
    requires |arg| >= 1
    ensures r.Ok? <==> parseF64(arg[..|arg| - 1]).Ok?
    ensures r.Ok? ==> r.value == parseF64(arg[..|arg| - 1]).value
    ensures r.Err? ==> r.error == "Failed to parse offset: " + parseF64(arg[..|arg| - 1]).error
  {
    match parseF64(arg[..|arg| - 1])
    case Ok(x) => Ok(x)
    case Err(e) => Err("Failed to parse offset: " + e)
  }

  /**
    The last character of the argument, whatever it is, is dropped and the rest is parsed:
    a successful parse passes through and a failed one gets the error prefix.
  */
  lemma ParseOffsetDropsSuffix<F>(body: string, suffix: char, parseF64: string -> Result<F, string>)
    ensures parseF64(body).Ok? ==> ParseOffset(body + [suffix], parseF64) == Ok(parseF64(body).value)
    ensures parseF64(body).Err? ==>
      ParseOffset(body + [suffix], parseF64) == Err("Failed to parse offset: " + parseF64(body).error)
  {
    assert (body + [suffix])[..|body|] == body;
  }

  /** Two arguments that differ only in their last character give the same offset. */
  lemma ParseOffsetIgnoresSuffix<F>(body: string, c1: char, c2: char, parseF64: string -> Result<F, string>)
    ensures ParseOffset(body + [c1], parseF64) == ParseOffset(body + [c2], parseF64)
  {
    ParseOffsetDropsSuffix(body, c1, parseF64);
    ParseOffsetDropsSuffix(body, c2, parseF64);
  }

  /**
    `truncate_string` of cli/src/cmds/utils.rs: the longest prefix of the input that has
    at most `maxLength` characters, with no ellipsis.
  */
  function TruncateString(s: string, maxLength: nat): (r: string)
    ensures |r| == if |s| > maxLength then maxLength else |s|
    ensures r == s[..|r|]
  {
    if |s| > maxLength then s[..maxLength] else s
  }

  /** Truncating an already truncated text changes nothing. */
  lemma TruncateIdempotent(s: string, maxLength: nat)
    ensures TruncateString(TruncateString(s, maxLength), maxLength) == TruncateString(s, maxLength)
  {
  }
}
