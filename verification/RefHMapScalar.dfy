/** The text forms of scalar fields: strings, byte slices, booleans and integers of a given width. */
module RefHMapScalar {
  import opened Wrappers

  datatype Kind = TextKind | BytesKind | BoolKind | IntKind(bits: nat) | UintKind(bits: nat)

  /** A Go string is a byte string, so a byte slice and its text are the same sequence. */
  datatype Scalar = Text(text: string) | Bytes(bytes: string) | Bool(flag: bool) | Number(number: int)

  function Pow2(n: nat): nat {
    if n == 0 then 1 else 2 * Pow2(n - 1)
  }

  /** The values a Go field of the kind can hold. */
  predicate Fits(kind: Kind, s: Scalar) {
    match kind
    case TextKind => s.Text?
    case BytesKind => s.Bytes?
    case BoolKind => s.Bool?
    case IntKind(bits) =>
      s.Number? && if bits == 0 then s.number == 0 else 0 - Pow2(bits - 1) <= s.number < Pow2(bits - 1)
    case UintKind(bits) => s.Number? && 0 <= s.number < Pow2(bits)
  }

  function Zero(kind: Kind): Scalar {
    match kind
    case TextKind => Text("")
    case BytesKind => Bytes("")
    case BoolKind => Bool(false)
    case _ => Number(0)
  }

  // ---------------------------------------------------------------- decimal text

  function Digit(d: nat): char
    requires d < 10
  {
    '0' + d as char
  }

  predicate IsDigit(c: char) {
    '0' <= c <= '9'
  }

  function FormatNat(n: nat): string {
    if n < 10 then [Digit(n)] else FormatNat(n / 10) + [Digit(n % 10)]
  }

  /** The value of a non-empty text of digits. */
  function ParseNat(s: string): Option<nat> {
    if s == "" || !IsDigit(s[|s| - 1]) then None
    else
      var last := (s[|s| - 1] - '0') as nat;
      if |s| == 1 then Some(last)
      else
        match ParseNat(s[..|s| - 1])
        case None => None
        case Some(front) => Some(10 * front + last)
  }

  function FormatInt(n: int): string {
    if n < 0 then "-" + FormatNat(-n) else FormatNat(n)
  }

  /** An optional sign and digits. */
  function ParseInt(s: string): Option<int> {
    if s != "" && (s[0] == '-' || s[0] == '+') then
      match ParseNat(s[1..])
      case None => None
      case Some(n) => Some(if s[0] == '-' then 0 - n else n)
    else
      match ParseNat(s)
      case None => None
      case Some(n) => Some(n)
  }

  lemma {:induction false} ParseFormatNat(n: nat)
    ensures ParseNat(FormatNat(n)) == Some(n)
    ensures FormatNat(n) != "" && IsDigit(FormatNat(n)[0])
  {
    if n >= 10 {
      ParseFormatNat(n / 10);
      assert FormatNat(n)[..|FormatNat(n)| - 1] == FormatNat(n / 10);
    }
  }

  lemma ParseFormatInt(n: int)
    ensures ParseInt(FormatInt(n)) == Some(n)
  {
    ParseFormatNat(if n < 0 then 0 - n else n);
    if n < 0 {
      assert FormatInt(n)[1..] == FormatNat(-n);
    }
  }

  // ---------------------------------------------------------------- scalars

  function Encode(s: Scalar): string {
    match s
    case Text(text) => text
    case Bytes(bytes) => bytes
    case Bool(flag) => if flag then "true" else "false"
    case Number(number) => FormatInt(number)
  }

  /** Decoding fails on text that is not a value of the kind. */
  function Decode(kind: Kind, raw: string): Option<Scalar> {
    match kind
    case TextKind => Some(Text(raw))
    case BytesKind => Some(Bytes(raw))
    case BoolKind =>
      if raw in ["1", "t", "T", "TRUE", "true", "True"] then Some(Bool(true))
      else if raw in ["0", "f", "F", "FALSE", "false", "False"] then Some(Bool(false))
      else None
    case IntKind(_) =>
      var n := ParseInt(raw);
      if n.Some? && Fits(kind, Number(n.value)) then Some(Number(n.value)) else None
    case UintKind(_) =>
      var n := ParseNat(raw);
      if n.Some? && Fits(kind, Number(n.value)) then Some(Number(n.value)) else None
  }

  /** Every value a field can hold is read back from its text. */
  lemma ScalarRoundTrip(kind: Kind, s: Scalar)
    requires Fits(kind, s)
    ensures Decode(kind, Encode(s)) == Some(s)
  {
    if s.Number? {
      ParseFormatInt(s.number);
      if kind.UintKind? {
        ParseFormatNat(s.number);
      }
    } else if s.Bool? {
      assert ["1", "t", "T", "TRUE", "true", "True"][4] == "true";
      assert ["0", "f", "F", "FALSE", "false", "False"][4] == "false";
      assert |"false"| == 5 && |"TRUE"| == 4 && |"1"| == 1;
    }
  }

  lemma {:induction false} Pow2Positive(n: nat)
    ensures Pow2(n) > 0
  {
    if n > 0 {
      Pow2Positive(n - 1);
    }
  }

  /** What is read from text, or left at zero, is always a value the field can hold. */
  lemma DecodeFits(kind: Kind, raw: string)
    ensures Decode(kind, raw).Some? ==> Fits(kind, Decode(kind, raw).value)
    ensures Fits(kind, Zero(kind))
  {
    if kind.IntKind? && kind.bits > 0 {
      Pow2Positive(kind.bits - 1);
    } else if kind.UintKind? {
      Pow2Positive(kind.bits);
    }
  }
}
