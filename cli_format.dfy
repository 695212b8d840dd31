/**
 * The field-spec parser of src/cli_format.c: a spec
 * `name:off:len:type[,name:off:len:type...]` (cli_format.h:12-13) becomes at
 * most 16 column descriptions.
 *
 * Strings are the contents of C strings, so they hold no NUL character.
 * `strtok(part, ":")` is modelled by Tokens (split on ':' dropping empty
 * tokens), `strtol(.., 10)` with the end-pointer check by ParseLong (the
 * whole token is one decimal integer) and `strchr(s, ',')` by TokenLen.
 */
module CliFormat {

  import opened Endian

  datatype Option<T> = None | Some(value: T)

  const MaxFields: nat := 16   // Field f[16] (cli_format.h:26)
  const NameCap: nat := 32     // char name[32] (cli_format.h:18)
  const PartBufSize: nat := 128  // char buf[128] (cli_format.c:63)
  const MaxColumnWidth: nat := 40

  datatype FieldType = FtStr | FtHex | FtU8 | FtU16 | FtU32

  datatype Field = Field(name: string, off: u16, len: u16, ftype: FieldType, colw: u16)

  // ---------------------------------------------------------------------------
  // trim (cli_format.c:7-13)
  // ---------------------------------------------------------------------------

  /** The two characters trim removes. */
  predicate IsBlank(c: char)
  {
    c == ' ' || c == '\t'
  }

  function TrimLeft(s: string): string
    decreases |s|
  {
    if |s| > 0 && IsBlank(s[0]) then TrimLeft(s[1..]) else s
  }

  function TrimRight(s: string): string
    decreases |s|
  {
    if |s| > 0 && IsBlank(s[|s| - 1]) then TrimRight(s[..|s| - 1]) else s
  }

  /** s without its leading and trailing spaces and tabs. */
  function Trimmed(s: string): string
  {
    TrimRight(TrimLeft(s))
  }

  /**
   * trim: skips the leading blanks (the memmove), then cuts trailing blanks
   * one by one (the `s[--n] = 0` writes).
   */
  method Trim(s: string) returns (t: string)
    ensures t == Trimmed(s)
  {
    var p := 0;
    while p < |s| && IsBlank(s[p])
      invariant 0 <= p <= |s|
      invariant TrimLeft(s[p..]) == TrimLeft(s)
    {
      assert s[p..][1..] == s[p + 1..];
      p := p + 1;
    }
    t := s[p..];
    var n := |t|;
    assert t[..n] == t;
    while n > 0 && IsBlank(t[n - 1])
      invariant 0 <= n <= |t|
      invariant TrimRight(t[..n]) == TrimRight(t)
    {
      assert t[..n][..n - 1] == t[..n - 1];
      n := n - 1;
    }
    assert TrimRight(t[..n]) == t[..n];
    t := t[..n];
  }

  /** Number of leading blanks, the characters TrimLeft drops. */
  function LeftCut(s: string): (a: nat)
    ensures a <= |s| && TrimLeft(s) == s[a..]
    ensures forall k :: 0 <= k < a ==> IsBlank(s[k])
    ensures a < |s| ==> !IsBlank(s[a])
    decreases |s|
  {
    if |s| > 0 && IsBlank(s[0]) then
      var a := LeftCut(s[1..]);
      assert s[1..][a..] == s[a + 1..];
      a + 1
    else 0
  }

  /** Length of s without its trailing blanks, the part TrimRight keeps. */
  function RightCut(s: string): (b: nat)
    ensures b <= |s| && TrimRight(s) == s[..b]
    ensures forall k :: b <= k < |s| ==> IsBlank(s[k])
    ensures b > 0 ==> !IsBlank(s[b - 1])
    decreases |s|
  {
    if |s| > 0 && IsBlank(s[|s| - 1]) then
      var b := RightCut(s[..|s| - 1]);
      assert s[..|s| - 1][..b] == s[..b];
      b
    else |s|
  }

  /**
   * trim removes blanks at both ends only: the result is the slice of s
   * between a run of leading and a run of trailing blanks, and it neither
   * starts nor ends with a blank.
   */
  lemma TrimmedShape(s: string) returns (i: nat, j: nat)
    ensures i <= j <= |s| && Trimmed(s) == s[i..j]
    ensures forall k :: 0 <= k < i ==> IsBlank(s[k])
    ensures forall k :: j <= k < |s| ==> IsBlank(s[k])
    ensures |Trimmed(s)| > 0 ==> !IsBlank(Trimmed(s)[0]) && !IsBlank(Trimmed(s)[|Trimmed(s)| - 1])
  {
    i := LeftCut(s);
    var b := RightCut(s[i..]);
    j := i + b;
    assert s[i..][..b] == s[i..j];
    forall k | j <= k < |s|
      ensures IsBlank(s[k])
    {
      assert s[k] == s[i..][k - i];
    }
    if b > 0 {
      assert s[i..j][0] == s[i..][..b][0];
    }
  }

  /** A string that neither starts nor ends with a blank is left as it is. */
  lemma TrimmedUnchanged(s: string)
    requires |s| > 0 ==> !IsBlank(s[0]) && !IsBlank(s[|s| - 1])
    ensures Trimmed(s) == s
  {
    var i, j := TrimmedShape(s);
    if |s| > 0 {
      assert i == 0;
      assert j == |s|;
    }
  }

  /** Trimming twice is trimming once. */
  lemma TrimmedIdempotent(s: string)
    ensures Trimmed(Trimmed(s)) == Trimmed(s)
  {
    var i, j := TrimmedShape(s);
    TrimmedUnchanged(Trimmed(s));
  }

  /** Trimming adds no character: what s lacks, Trimmed(s) lacks. */
  lemma TrimmedKeepsOut(s: string, c: char)
    requires c !in s
    ensures c !in Trimmed(s)
  {
    var i, j := TrimmedShape(s);
    forall k | 0 <= k < j - i
      ensures Trimmed(s)[k] != c
    {
      assert Trimmed(s)[k] == s[i + k];
    }
  }

  // ---------------------------------------------------------------------------
  // strtok and strchr
  // ---------------------------------------------------------------------------

  /** Length of the longest prefix of s free of sep: where strchr finds sep, or |s|. */
  function TokenLen(s: string, sep: char): (n: nat)
    ensures n <= |s|
    decreases |s|
  {
    if |s| == 0 || s[0] == sep then 0 else 1 + TokenLen(s[1..], sep)
  }

  /** TokenLen stops at the first sep: none before it, and sep at it unless at the end. */
  lemma {:induction false} TokenLenStops(s: string, sep: char)
    ensures forall i :: 0 <= i < TokenLen(s, sep) ==> s[i] != sep
    ensures TokenLen(s, sep) < |s| ==> s[TokenLen(s, sep)] == sep
    decreases |s|
  {
    if |s| > 0 && s[0] != sep {
      TokenLenStops(s[1..], sep);
      assert forall i :: 1 <= i < |s| ==> s[i] == s[1..][i - 1];
    }
  }

  /** The tokens successive strtok calls return: maximal non-empty runs free of sep. */
  function Tokens(s: string, sep: char): (r: seq<string>)
    ensures forall i :: 0 <= i < |r| ==> |r[i]| > 0 && sep !in r[i]
    decreases |s|
  {
    if |s| == 0 then []
    else if s[0] == sep then Tokens(s[1..], sep)
    else
      var n := TokenLen(s, sep);
      TokenLenStops(s, sep);
      assert forall i :: 0 <= i < n ==> s[..n][i] != sep;
      [s[..n]] + Tokens(s[n..], sep)
  }

  /** The words of ts with sep between each two. */
  function Join(ts: seq<string>, sep: char): string
  {
    if |ts| == 0 then "" else if |ts| == 1 then ts[0] else ts[0] + [sep] + Join(ts[1..], sep)
  }

  /** The sep-free prefix of t + rest is t when rest is empty or starts with sep. */
  lemma {:induction false} TokenLenOfWord(t: string, rest: string, sep: char)
    requires sep !in t
    requires |rest| == 0 || rest[0] == sep
    ensures TokenLen(t + rest, sep) == |t|
  {
    TokenLenStops(t + rest, sep);
    assert forall i :: 0 <= i < |t| ==> (t + rest)[i] == t[i];
    assert |rest| > 0 ==> (t + rest)[|t|] == sep;
  }

  /** Non-empty, separator-free words joined by sep split back into the same words. */
  lemma {:induction false} TokensOfJoin(ts: seq<string>, sep: char)
    requires forall i :: 0 <= i < |ts| ==> |ts[i]| > 0 && sep !in ts[i]
    ensures Tokens(Join(ts, sep), sep) == ts
    decreases |ts|
  {
    if |ts| == 1 {
      TokenLenOfWord(ts[0], "", sep);
      assert ts[0] + "" == ts[0];
      assert ts[0][|ts[0]|..] == "";
    } else if |ts| > 1 {
      var rest := [sep] + Join(ts[1..], sep);
      var s := ts[0] + rest;
      assert Join(ts, sep) == s;
      TokenLenOfWord(ts[0], rest, sep);
      assert s[..|ts[0]|] == ts[0];
      assert s[|ts[0]|..] == rest;
      assert rest[1..] == Join(ts[1..], sep);
      TokensOfJoin(ts[1..], sep);
      assert [ts[0]] + ts[1..] == ts;
    }
  }

  // ---------------------------------------------------------------------------
  // strtol (base 10) with the `*b == '\0' || *endptr` check (cli_format.c:26-28)
  // ---------------------------------------------------------------------------

  /** isspace in the C locale. */
  predicate IsSpace(c: char)
  {
    c == ' ' || c == '\t' || c == '\n' || c == '\U{0B}' || c == '\U{0C}' || c == '\r'
  }

  predicate IsDigit(c: char)
  {
    '0' <= c <= '9'
  }

  predicate AllDigits(s: string)
  {
    forall i :: 0 <= i < |s| ==> IsDigit(s[i])
  }

  /** Number of leading isspace characters strtol skips. */
  function LeadingSpaces(s: string): (n: nat)
    ensures n <= |s|
    ensures forall i :: 0 <= i < n ==> IsSpace(s[i])
    ensures n < |s| ==> !IsSpace(s[n])
    decreases |s|
  {
    if |s| > 0 && IsSpace(s[0]) then 1 + LeadingSpaces(s[1..]) else 0
  }

  /** The value of a string of decimal digits, most significant first. */
  function DigitsValue(ds: string): nat
    requires AllDigits(ds)
    decreases |ds|
  {
    if |ds| == 0 then 0 else 10 * DigitsValue(ds[..|ds| - 1]) + (ds[|ds| - 1] as int - '0' as int)
  }

  /**
   * strtol with the end-pointer check: white space, an optional sign, then
   * one or more digits and nothing after them.  An empty token or one
   * without digits is refused.  Out-of-range values saturate in C; they are
   * refused by the range check that follows either way.
   */
  function ParseLong(s: string): (r: Option<int>)
    ensures r.Some? ==> |s| > 0 && IsDigit(s[|s| - 1])
    ensures r.Some? ==> LeadingSpaces(s) < |s|
    ensures r.Some? ==> var c := s[LeadingSpaces(s)]; IsDigit(c) || c == '+' || c == '-'
    ensures r.Some? ==> forall i :: LeadingSpaces(s) < i < |s| ==> IsDigit(s[i])
    ensures |s| > 0 && AllDigits(s) ==> r == Some(DigitsValue(s))
  {
    var rest := s[LeadingSpaces(s)..];
    var signed := |rest| > 0 && (rest[0] == '+' || rest[0] == '-');
    var ds := if signed then rest[1..] else rest;
    if |ds| > 0 && AllDigits(ds) then
      assert ds[|ds| - 1] == s[|s| - 1];
      var v: int := DigitsValue(ds);
      Some(if signed && rest[0] == '-' then -v else v)
    else None
  }

  /** The decimal rendering of n, without sign or leading zeros. */
  function Decimal(n: nat): (r: string)
    ensures |r| > 0 && AllDigits(r)
    decreases n
  {
    var d := ('0' as int + n % 10) as char;
    if n < 10 then [d] else Decimal(n / 10) + [d]
  }

  /** Reading back a decimal rendering gives the number. */
  lemma {:induction false} DigitsValueOfDecimal(n: nat)
    ensures DigitsValue(Decimal(n)) == n
    decreases n
  {
    if n >= 10 {
      var r := Decimal(n);
      assert r[..|r| - 1] == Decimal(n / 10);
      DigitsValueOfDecimal(n / 10);
    }
  }

  /** strtol accepts the decimal rendering of every n and returns n. */
  lemma ParseDecimal(n: nat)
    ensures ParseLong(Decimal(n)) == Some(n)
  {
    DigitsValueOfDecimal(n);
    var s := Decimal(n);
    assert !IsSpace(s[0]) && s[0] != '+' && s[0] != '-';
    assert s[LeadingSpaces(s)..] == s;
  }

  /** strtol accepts a minus sign in front of a decimal rendering. */
  lemma ParseNegativeDecimal(n: nat)
    ensures ParseLong("-" + Decimal(n)) == Some(-(n as int))
  {
    DigitsValueOfDecimal(n);
    var s := "-" + Decimal(n);
    assert s[LeadingSpaces(s)..] == s;
    assert s[1..] == Decimal(n);
  }

  function Pow10(k: nat): (r: nat)
    ensures r >= 1
  {
    if k == 0 then 1 else 10 * Pow10(k - 1)
  }

  /** A number below 10^k has at most k digits. */
  lemma {:induction false} DecimalLength(n: nat, k: nat)
    requires 1 <= k && n < Pow10(k)
    ensures |Decimal(n)| <= k
    decreases n
  {
    if n >= 10 {
      assert Pow10(1) == 10;
      DecimalLength(n / 10, k - 1);
    }
  }

  // ---------------------------------------------------------------------------
  // Types and column widths (cli_format.c:33-50)
  // ---------------------------------------------------------------------------

  /** The type names strcmp accepts, mapped to FT_STR..FT_U32. */
  function TypeOf(d: string): Option<FieldType>
  {
    if d == "s" then Some(FtStr)
    else if d == "hex" then Some(FtHex)
    else if d == "u8" then Some(FtU8)
    else if d == "u16" then Some(FtU16)
    else if d == "u32" then Some(FtU32)
    else None
  }

  function TypeName(t: FieldType): string
  {
    match t
    case FtStr => "s"
    case FtHex => "hex"
    case FtU8 => "u8"
    case FtU16 => "u16"
    case FtU32 => "u32"
  }

  /** The type set is closed: exactly the five names are accepted, each naming its own type. */
  lemma TypeNames(d: string, t: FieldType)
    ensures TypeOf(TypeName(t)) == Some(t)
    ensures TypeOf(d) == Some(t) <==> d == TypeName(t)
  {
  }

  /**
   * The width a type asks for.  For hex, `(uint16_t)(len * 2)` wraps for
   * len >= 32768 before the clamp to 32.
   */
  function BaseWidth(t: FieldType, len: u16): (w: u16)
    ensures w <= 32
    ensures t == FtStr ==> w == if len < 30 then len else 30
    ensures t == FtHex && len < 0x8000 ==> w == if 2 * len < 32 then 2 * len else 32
  {
    match t
    case FtStr => if len > 30 then 30 else len
    case FtHex => var w := (len * 2) % 0x1_0000; if w > 32 then 32 else w
    case FtU8 => 3
    case FtU16 => 5
    case FtU32 => 10
  }

  /** A hex field of 32768 bytes gets width 0 from the wrap-around. */
  lemma HexWidthWraps()
    ensures BaseWidth(FtHex, 0x8000) == 0 && BaseWidth(FtHex, 0x8001) == 2
  {
  }

  /**
   * colw: the type's width, widened to the name's length, capped at 40.
   * Names have at most 31 characters and type widths at most 32, so the cap
   * is never reached.
   */
  function ColumnWidth(name: string, len: u16, t: FieldType): (w: u16)
    requires |name| < NameCap
    ensures w >= |name| && w >= BaseWidth(t, len)
    ensures w == |name| || w == BaseWidth(t, len)
    ensures w <= MaxColumnWidth
  {
    var minw := |name|;
    var w := BaseWidth(t, len);
    var colw := if w < minw then minw else w;
    // the clamp `if (out->colw > 40)` never fires
    assert colw <= MaxColumnWidth;
    colw
  }

  // ---------------------------------------------------------------------------
  // parse_one_field (cli_format.c:15-52)
  // ---------------------------------------------------------------------------

  /** The field one part describes, or None when parse_one_field returns -1. */
  function FieldOf(part: string): (r: Option<Field>)
    ensures r.Some? ==> 1 <= |r.value.name| < NameCap && ':' !in r.value.name
    ensures r.Some? ==> r.value.colw == ColumnWidth(r.value.name, r.value.len, r.value.ftype)
  {
    var toks := Tokens(part, ':');
    if |toks| < 4 then None
    else
      var name := Trimmed(toks[0]);
      var b := Trimmed(toks[1]);
      var c := Trimmed(toks[2]);
      var d := Trimmed(toks[3]);
      if |name| == 0 || |name| >= NameCap then None
      else
        var off := ParseLong(b);
        var len := ParseLong(c);
        var t := TypeOf(d);
        if off.None? || len.None? then None
        else if off.value < 0 || off.value > 0xFFFF || len.value < 0 || len.value > 0xFFFF then None
        else if t.None? then None
        else
          TrimmedKeepsOut(toks[0], ':');
          Some(Field(name, off.value, len.value, t.value, ColumnWidth(name, len.value, t.value)))
  }

  /**
   * parse_one_field: four ':'-tokens (further tokens are ignored), each
   * trimmed; a name of 1..31 characters; off and len whole decimal integers
   * in 0..65535; one of the five type names; the column width from the
   * type and the name.
   */
  method ParseOneField(part: string) returns (r: Option<Field>)
    ensures r == FieldOf(part)
  {
    var toks := Tokens(part, ':');
    if |toks| < 4 {
      return None;
    }
    var a := Trim(toks[0]);
    var b := Trim(toks[1]);
    var c := Trim(toks[2]);
    var d := Trim(toks[3]);
    if |a| == 0 || |a| >= NameCap {
      return None;
    }
    var off := ParseLong(b);
    if off.None? {
      return None;
    }
    var len := ParseLong(c);
    if len.None? {
      return None;
    }
    if off.value < 0 || off.value > 0xFFFF || len.value < 0 || len.value > 0xFFFF {
      return None;
    }
    var t := TypeOf(d);
    if t.None? {
      return None;
    }
    r := Some(Field(a, off.value, len.value, t.value, ColumnWidth(a, len.value, t.value)));
  }

  /** A name that survives the round trip: 1..31 characters, no separators, no blank at either end. */
  predicate PlainName(name: string)
  {
    && 1 <= |name| < NameCap
    && ':' !in name && ',' !in name
    && !IsBlank(name[0]) && !IsBlank(name[|name| - 1])
  }

  /** The text `name:off:len:type` that describes a field. */
  function FieldText(f: Field): string
  {
    Join([f.name, Decimal(f.off), Decimal(f.len), TypeName(f.ftype)], ':')
  }

  /** A field whose width is the one parse_one_field computes. */
  predicate WellFormedField(f: Field)
  {
    PlainName(f.name) && f.colw == ColumnWidth(f.name, f.len, f.ftype)
  }

  lemma DigitsHaveNoSeparator(s: string)
    requires AllDigits(s)
    ensures ':' !in s && ',' !in s && (|s| > 0 ==> !IsBlank(s[0]) && !IsBlank(s[|s| - 1]))
  {
    forall i | 0 <= i < |s|
      ensures s[i] != ':' && s[i] != ','
    {
      assert IsDigit(s[i]);
    }
  }

  /** parse_one_field reads back every field from the text that describes it. */
  lemma ParseFieldText(f: Field)
    requires WellFormedField(f)
    ensures FieldOf(FieldText(f)) == Some(f)
  {
    var ws := [f.name, Decimal(f.off), Decimal(f.len), TypeName(f.ftype)];
    DigitsHaveNoSeparator(Decimal(f.off));
    DigitsHaveNoSeparator(Decimal(f.len));
    TokensOfJoin(ws, ':');
    TrimmedUnchanged(f.name);
    TrimmedUnchanged(Decimal(f.off));
    TrimmedUnchanged(Decimal(f.len));
    TrimmedUnchanged(TypeName(f.ftype));
    ParseDecimal(f.off);
    ParseDecimal(f.len);
    TypeNames(TypeName(f.ftype), f.ftype);
  }

  // ---------------------------------------------------------------------------
  // parse_spec (cli_format.c:54-73)
  // ---------------------------------------------------------------------------

  /**
   * The comma-separated parts parse_spec visits: every part up to each ','
   * and the text after the last one, except that nothing is visited after a
   * ',' that ends the spec.
   */
  function Parts(s: string): seq<string>
    decreases |s|
  {
    if |s| == 0 then []
    else if TokenLen(s, ',') == |s| then [s]
    else [s[..TokenLen(s, ',')]] + Parts(s[TokenLen(s, ',') + 1..])
  }

  /** A non-empty spec without ',' is one part. */
  lemma PartsWhole(s: string)
    requires |s| > 0 && TokenLen(s, ',') == |s|
    ensures Parts(s) == [s]
  {
  }

  /** The first part is the text up to the first ','; the rest are the parts after it. */
  lemma PartsSplit(s: string, n: nat)
    requires n == TokenLen(s, ',') && n < |s|
    ensures Parts(s) == [s[..n]] + Parts(s[n + 1..])
  {
  }

  /** Joining a word in front of a non-empty list puts one separator between. */
  lemma JoinCons(x: string, ps: seq<string>, sep: char)
    requires |ps| >= 1
    ensures Join([x] + ps, sep) == x + [sep] + Join(ps, sep)
  {
    assert ([x] + ps)[1..] == ps;
  }

  /** No part contains a ','. */
  lemma {:induction false} PartsCommaFree(s: string)
    ensures forall i :: 0 <= i < |Parts(s)| ==> ',' !in Parts(s)[i]
    decreases |s|
  {
    if |s| > 0 {
      var n := TokenLen(s, ',');
      TokenLenStops(s, ',');
      assert forall i :: 0 <= i < n ==> s[..n][i] != ',';
      if n < |s| {
        PartsSplit(s, n);
        PartsCommaFree(s[n + 1..]);
      } else {
        PartsWhole(s);
      }
    }
  }

  /** "," when s ends with a ',', after which parse_spec visits nothing. */
  function FinalComma(s: string): string
  {
    if |s| > 0 && s[|s| - 1] == ',' then "," else ""
  }

  /** The parts joined by ',' give the spec back, up to a ',' that ends it. */
  lemma {:induction false} JoinParts(s: string)
    ensures Join(Parts(s), ',') + FinalComma(s) == s
    decreases |s|
  {
    if |s| > 0 {
      var n := TokenLen(s, ',');
      if n == |s| {
        assert s[|s| - 1] != ',' by {
          TokenLenStops(s, ',');
        }
        PartsWhole(s);
      } else {
        var x := s[..n];
        var rest := s[n + 1..];
        assert s == x + [','] + rest by {
          SplitAt(s, n);
          TokenLenStops(s, ',');
        }
        PartsSplit(s, n);
        if rest == [] {
          assert Join(Parts(s), ',') == x;
        } else {
          assert |Parts(rest)| >= 1 by {
            if TokenLen(rest, ',') < |rest| {
              PartsSplit(rest, TokenLen(rest, ','));
            } else {
              PartsWhole(rest);
            }
          }
          JoinParts(rest);
          JoinPartsStep(x, rest, Parts(rest));
        }
      }
    }
  }

  /** A string is what comes before position n, the character at n, and what follows. */
  lemma SplitAt(s: string, n: nat)
    requires n < |s|
    ensures s == s[..n] + [s[n]] + s[n + 1..]
  {
  }

  /** The inductive step of JoinParts: a part x, a ',' and a non-empty rest. */
  lemma JoinPartsStep(x: string, rest: string, ps: seq<string>)
    requires |rest| > 0 && |ps| >= 1
    requires Join(ps, ',') + FinalComma(rest) == rest
    ensures Join([x] + ps, ',') + FinalComma(x + [','] + rest) == x + [','] + rest
  {
    var j := Join(ps, ',');
    var h := x + [','];
    assert Join([x] + ps, ',') == h + j by {
      JoinCons(x, ps, ',');
    }
    assert FinalComma(h + rest) == FinalComma(rest) by {
      assert (h + rest)[|h + rest| - 1] == rest[|rest| - 1];
    }
    AppendAssoc(h, j, FinalComma(rest));
  }

  /** Concatenation of strings is associative. */
  lemma AppendAssoc(a: string, b: string, c: string)
    ensures (a + b) + c == a + (b + c)
  {
  }

  /** Comma-free parts whose last one is not empty are exactly the parts of their join. */
  lemma {:induction false} PartsOfJoin(ps: seq<string>)
    requires |ps| >= 1 && |ps[|ps| - 1]| > 0
    requires forall i :: 0 <= i < |ps| ==> ',' !in ps[i]
    ensures Parts(Join(ps, ',')) == ps
    decreases |ps|
  {
    if |ps| == 1 {
      TokenLenOfWord(ps[0], "", ',');
      assert ps[0] + "" == ps[0];
    } else {
      var x := ps[0];
      var tail := Join(ps[1..], ',');
      var s := x + ([','] + tail);
      assert Join(ps, ',') == s by {
        assert [x] + ps[1..] == ps;
        JoinCons(x, ps[1..], ',');
        AppendAssoc(x, [','], tail);
      }
      assert s[..|x|] == x && s[|x| + 1..] == tail;
      assert TokenLen(s, ',') == |x| by {
        TokenLenOfWord(x, [','] + tail, ',');
      }
      JoinNonEmpty(ps[1..]);
      PartsSplit(s, |x|);
      PartsOfJoin(ps[1..]);
      assert [x] + ps[1..] == ps;
    }
  }

  /** A join of words whose last one is not empty is not empty. */
  lemma {:induction false} JoinNonEmpty(ps: seq<string>)
    requires |ps| >= 1 && |ps[|ps| - 1]| > 0
    ensures |Join(ps, ',')| > 0
    decreases |ps|
  {
    if |ps| > 1 {
      JoinNonEmpty(ps[1..]);
    }
  }

  /** The first 127 characters of a part: what strncpy leaves in buf[128]. */
  function Truncated(part: string): (r: string)
    ensures |r| <= PartBufSize - 1
    ensures |part| < PartBufSize ==> r == part
  {
    if |part| < PartBufSize then part else part[..PartBufSize - 1]
  }

  /** The field parse_spec makes of one part, or None when it returns -1 on it. */
  function PartField(part: string): Option<Field>
  {
    FieldOf(Trimmed(Truncated(part)))
  }

  /** The part at the head of s is the next one of Parts(spec), after those already visited. */
  lemma PartsAdvance(spec: string, s: string, n: nat, done: seq<string>)
    requires |s| > 0 && Parts(spec) == done + Parts(s) && n == TokenLen(s, ',')
    ensures |Parts(spec)| > |done| && Parts(spec)[..|done|] == done && Parts(spec)[|done|] == s[..n]
    ensures n == |s| ==> Parts(spec) == done + [s[..n]]
    ensures n < |s| ==> Parts(spec) == (done + [s[..n]]) + Parts(s[n + 1..])
  {
    if n == |s| {
      PartsWhole(s);
      assert s[..n] == s;
    } else {
      PartsSplit(s, n);
      AppendAssocParts(done, [s[..n]], Parts(s[n + 1..]));
    }
  }

  /** Concatenation of part lists is associative. */
  lemma AppendAssocParts(a: seq<string>, b: seq<string>, c: seq<string>)
    ensures a + (b + c) == (a + b) + c
  {
  }

  /** parse_spec accepts a list of parts: between 1 and 16 of them, each one a field. */
  ghost predicate Accepts(ps: seq<string>)
  {
    1 <= |ps| <= MaxFields && forall i :: 0 <= i < |ps| ==> PartField(ps[i]).Some?
  }

  /** fields are the fields of the first |fields| parts of ps. */
  ghost predicate FieldsOf(ps: seq<string>, fields: seq<Field>)
  {
    |fields| <= |ps| && forall i :: 0 <= i < |fields| ==> PartField(ps[i]) == Some(fields[i])
  }

  /** What parse_spec promises once it has visited every part of spec. */
  lemma AllPartsRead(spec: string, done: seq<string>, fields: seq<Field>)
    requires Parts(spec) == done && |fields| == |done| <= MaxFields && FieldsOf(done, fields)
    ensures |fields| > 0 <==> Accepts(Parts(spec))
  {
  }

  /** One more part read into one more field keeps parts and fields in step. */
  lemma FieldsExtend(done: seq<string>, fields: seq<Field>, part: string, f: Field)
    requires |fields| == |done| && FieldsOf(done, fields) && PartField(part) == Some(f)
    ensures FieldsOf(done + [part], fields + [f])
  {
    forall i | 0 <= i < |done| + 1
      ensures PartField((done + [part])[i]) == Some((fields + [f])[i])
    {
      if i < |done| {
        assert (done + [part])[i] == done[i];
      }
    }
  }

  /** What parse_spec promises when it stops at the part after those in done. */
  lemma PartRejected(spec: string, done: seq<string>, fields: seq<Field>)
    requires |Parts(spec)| > |done| && Parts(spec)[..|done|] == done
    requires |fields| == |done| <= MaxFields && FieldsOf(done, fields)
    requires |done| == MaxFields || PartField(Parts(spec)[|done|]).None?
    ensures !Accepts(Parts(spec)) && FieldsOf(Parts(spec), fields)
  {
    forall i | 0 <= i < |fields|
      ensures PartField(Parts(spec)[i]) == Some(fields[i])
    {
      assert Parts(spec)[i] == done[i];
    }
  }

  /** The body of parse_spec's loop on one part: copy it into buf[128], trim it, parse it. */
  method ParsePart(part: string) returns (r: Option<Field>)
    ensures r == PartField(part)
  {
    var buf := Truncated(part);
    buf := Trim(buf);
    r := ParseOneField(buf);
  }

  /**
   * parse_spec: walks the parts left to right; fails when a 17th part comes,
   * or a part (truncated to 127 characters and trimmed) is not a field; and
   * succeeds exactly when every part is a field, there are at most 16 of
   * them, and there is at least one.  `fields` holds the fields read before
   * the return (fs->f[0..fs->n-1]).
   */
  method ParseSpec(spec: string) returns (rc: int, fields: seq<Field>)
    ensures rc == 0 || rc == -1
    ensures rc == 0 <==> Accepts(Parts(spec))
    ensures FieldsOf(Parts(spec), fields) && |fields| <= MaxFields
    ensures rc == 0 ==> |fields| == |Parts(spec)|
  {
    fields := [];
    ghost var done: seq<string> := [];
    var s := spec;
    while |s| > 0
      invariant Parts(spec) == done + Parts(s)
      invariant |fields| == |done| <= MaxFields && FieldsOf(done, fields)
      decreases |s|
    {
      var n := TokenLen(s, ',');  // strchr(s, ',')
      var part := s[..n];
      PartsAdvance(spec, s, n, done);
      if |fields| >= MaxFields {
        PartRejected(spec, done, fields);
        return -1, fields;
      }
      var f := ParsePart(part);
      if f.None? {
        PartRejected(spec, done, fields);
        return -1, fields;
      }
      FieldsExtend(done, fields, part, f.value);
      fields := fields + [f.value];
      done := done + [part];
      if n == |s| {
        break;
      }
      s := s[n + 1..];
    }
    AllPartsRead(spec, done, fields);
    rc := if |fields| > 0 then 0 else -1;
  }

  /** The spec text listing the given fields, separated by ','. */
  function SpecText(fs: seq<Field>): string
  {
    Join(seq(|fs|, i requires 0 <= i < |fs| => FieldText(fs[i])), ',')
  }

  lemma JoinOfFour(a: string, b: string, c: string, d: string, sep: char)
    ensures Join([a, b, c, d], sep) == a + [sep] + b + [sep] + c + [sep] + d
  {
    JoinCons(c, [d], sep);
    JoinCons(b, [c, d], sep);
    JoinCons(a, [b, c, d], sep);
    assert [a] + [b, c, d] == [a, b, c, d];
    assert [b] + [c, d] == [b, c, d];
    assert [c] + [d] == [c, d];
  }

  lemma FieldTextShape(f: Field)
    requires WellFormedField(f)
    ensures 0 < |FieldText(f)| < PartBufSize && ',' !in FieldText(f)
    ensures Trimmed(Truncated(FieldText(f))) == FieldText(f)
  {
    var t := FieldText(f);
    DecimalLength(f.off, 5);
    DecimalLength(f.len, 5);
    DigitsHaveNoSeparator(Decimal(f.off));
    DigitsHaveNoSeparator(Decimal(f.len));
    JoinOfFour(f.name, Decimal(f.off), Decimal(f.len), TypeName(f.ftype), ':');
    assert t[0] == f.name[0];
    assert t[|t| - 1] == TypeName(f.ftype)[|TypeName(f.ftype)| - 1];
    TrimmedUnchanged(t);
  }

  /**
   * parse_spec reads back any 1..16 well-formed fields from the spec text
   * that lists them: with the ensures of ParseSpec, it returns 0 and
   * exactly these fields.
   */
  lemma ParseSpecText(fs: seq<Field>)
    requires 1 <= |fs| <= MaxFields
    requires forall i :: 0 <= i < |fs| ==> WellFormedField(fs[i])
    ensures |Parts(SpecText(fs))| == |fs|
    ensures forall i :: 0 <= i < |fs| ==> PartField(Parts(SpecText(fs))[i]) == Some(fs[i])
  {
    var ts := seq(|fs|, i requires 0 <= i < |fs| => FieldText(fs[i]));
    forall i | 0 <= i < |fs|
      ensures 0 < |ts[i]| < PartBufSize && ',' !in ts[i]
      ensures PartField(ts[i]) == Some(fs[i])
    {
      FieldTextShape(fs[i]);
      ParseFieldText(fs[i]);
    }
    PartsOfJoin(ts);
  }

  // ---------------------------------------------------------------------------
  // rd_u16le / rd_u32le (cli_format.c:75-76)
  // ---------------------------------------------------------------------------

  /** rd_u16le: the OR of the two bytes, cast to uint16_t; the endian codec's read. */
  function RdU16Le(p: seq<u8>): (r: u16)
    requires |p| >= 2
    ensures r == ReadLeU16(p, 0)
  {
    (p[0] as int + 0x100 * p[1] as int) % 0x1_0000
  }

  /**
   * rd_u32le: the OR of the four shifted bytes, cast to uint32_t, which is
   * the endian codec's read.  `p[3] << 24` is computed in int; the cast
   * reduces modulo 2^32.
   */
  function RdU32Le(p: seq<u8>): (r: u32)
    requires |p| >= 4
    ensures r == ReadLeU32(p, 0)
  {
    (p[0] as int + 0x100 * p[1] as int + 0x1_0000 * p[2] as int + 0x100_0000 * p[3] as int) % 0x1_0000_0000
  }
}
