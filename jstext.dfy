/**
 * The JavaScript string operations the driver relies on, stated on `seq<char>`:
 * removing CR/LF from a received line, matching a literal reply pattern,
 * `String.prototype.split`, `parseInt`, number-to-decimal formatting and
 * `Buffer.prototype.toString('hex')`.
 */
module JsText {
  import opened Wrappers

  /** One element of a Node.js `Buffer`. */
  newtype byte = x: int | 0 <= x < 256

  // ---------------------------------------------------------------------------
  // Pattern matching. The driver only matches the literal patterns "OK" and
  // "ERROR", which have no regular-expression metacharacters, so
  // `line.match(pattern)` succeeds exactly when the pattern occurs in the line.

  predicate Contains(s: string, pat: string)
    decreases |s|
  {
    pat <= s || (|s| > 0 && Contains(s[1..], pat))
  }

  /** The pattern occurs in `s` starting at offset `i`. */
  predicate OccursAt(s: string, pat: string, i: int)
  {
    0 <= i <= |s| - |pat| && s[i..i + |pat|] == pat
  }

  /** Contains agrees with the direct definition: the pattern occurs at some offset. */
  lemma ContainsAt(s: string, pat: string)
    ensures Contains(s, pat) <==> exists i :: OccursAt(s, pat, i)
  {
    if Contains(s, pat) {
      ContainsOccurs(s, pat);
    }
    if exists i :: OccursAt(s, pat, i) {
      var i :| OccursAt(s, pat, i);
      OccursContains(s, pat, i);
    }
  }

  lemma {:induction false} ContainsOccurs(s: string, pat: string)
    requires Contains(s, pat)
    ensures exists i :: OccursAt(s, pat, i)
    decreases |s|
  {
    if pat <= s {
      assert s[0..|pat|] == pat;
      assert OccursAt(s, pat, 0);
    } else {
      ContainsOccurs(s[1..], pat);
      var i :| OccursAt(s[1..], pat, i);
      assert s[1..][i..i + |pat|] == s[i + 1..i + 1 + |pat|];
      assert OccursAt(s, pat, i + 1);
    }
  }

  lemma {:induction false} OccursContains(s: string, pat: string, i: int)
    requires OccursAt(s, pat, i)
    ensures Contains(s, pat)
    decreases i
  {
    if i == 0 {
      assert pat <= s;
    } else {
      assert s[i..i + |pat|] == s[1..][i - 1..i - 1 + |pat|];
      OccursContains(s[1..], pat, i - 1);
    }
  }

  // ---------------------------------------------------------------------------
  // CR/LF removal: `data.replace(/\r/g, "").replace(/\n/g, "")`.

  /** Every occurrence of `c` removed; all other characters kept, in order. */
  function RemoveAll(s: string, c: char): (r: string)
    ensures c !in r
    ensures |r| <= |s|
    ensures forall d :: d in r ==> d in s
    ensures forall d :: d != c ==> multiset(r)[d] == multiset(s)[d]
  {
    if s == [] then []
    else
      var rest := RemoveAll(s[1..], c);
      assert s == [s[0]] + s[1..];
      if s[0] == c then rest else [s[0]] + rest
  }

  /** A received line with every carriage return and every line feed removed. */
  function StripCrLf(data: string): (r: string)
    ensures '\r' !in r && '\n' !in r
    ensures forall d :: d != '\r' && d != '\n' ==> multiset(r)[d] == multiset(data)[d]
  {
    RemoveAll(RemoveAll(data, '\r'), '\n')
  }

  lemma {:induction false} RemoveAllAppend(a: string, b: string, c: char)
    ensures RemoveAll(a + b, c) == RemoveAll(a, c) + RemoveAll(b, c)
  {
    if a != [] {
      assert (a + b)[0] == a[0];
      assert (a + b)[1..] == a[1..] + b;
      RemoveAllAppend(a[1..], b, c);
      var head := if a[0] == c then [] else [a[0]];
      calc {
        RemoveAll(a + b, c);
        head + RemoveAll(a[1..] + b, c);
        head + (RemoveAll(a[1..], c) + RemoveAll(b, c));
        (head + RemoveAll(a[1..], c)) + RemoveAll(b, c);
        RemoveAll(a, c) + RemoveAll(b, c);
      }
    } else {
      assert a + b == b;
    }
  }

  lemma {:induction false} RemoveAllAbsent(s: string, c: char)
    requires c !in s
    ensures RemoveAll(s, c) == s
  {
    if s != [] {
      RemoveAllAbsent(s[1..], c);
    }
  }

  /** Stripping works character by character: it distributes over concatenation. */
  lemma StripCrLfAppend(a: string, b: string)
    ensures StripCrLf(a + b) == StripCrLf(a) + StripCrLf(b)
  {
    RemoveAllAppend(a, b, '\r');
    RemoveAllAppend(RemoveAll(a, '\r'), RemoveAll(b, '\r'), '\n');
  }

  /** A line without CR or LF is left as it is; in particular stripping is idempotent. */
  lemma StripCrLfClean(s: string)
    requires '\r' !in s && '\n' !in s
    ensures StripCrLf(s) == s
  {
    RemoveAllAbsent(s, '\r');
    RemoveAllAbsent(s, '\n');
  }

  lemma StripCrLfIdempotent(s: string)
    ensures StripCrLf(StripCrLf(s)) == StripCrLf(s)
  {
    StripCrLfClean(StripCrLf(s));
  }

  /** A device line is its text followed by CR LF; stripping gives the text back. */
  lemma StripCrLfTerminated(a: string)
    requires '\r' !in a && '\n' !in a
    ensures StripCrLf(a + "\r\n") == a
  {
    StripCrLfAppend(a, "\r\n");
    StripCrLfClean(a);
  }

  /** Not only trailing terminators go: a CR LF pair inside the line goes too. */
  lemma StripCrLfInterior(a: string, b: string)
    requires '\r' !in a && '\n' !in a && '\r' !in b && '\n' !in b
    ensures StripCrLf(a + "\r\n" + b + "\r\n") == a + b
  {
    StripCrLfAppend(a + "\r\n" + b, "\r\n");
    StripCrLfAppend(a + "\r\n", b);
    StripCrLfAppend(a, "\r\n");
    StripCrLfClean(a);
    StripCrLfClean(b);
  }

  // ---------------------------------------------------------------------------
  // `String.prototype.split` with a one-character separator.

  function Split(s: string, sep: char): (parts: seq<string>)
    ensures |parts| >= 1
    ensures forall k :: 0 <= k < |parts| ==> sep !in parts[k]
    decreases |s|
  {
    if s == [] then [""]
    else if s[0] == sep then [""] + Split(s[1..], sep)
    else
      var rest := Split(s[1..], sep);
      [[s[0]] + rest[0]] + rest[1..]
  }

  /** `parts.join(sep)`, the inverse of Split. */
  function Join(parts: seq<string>, sep: char): string
    requires |parts| >= 1
  {
    if |parts| == 1 then parts[0] else parts[0] + [sep] + Join(parts[1..], sep)
  }

  /** Splitting loses nothing: joining the parts back gives the original string. */
  lemma {:induction false} JoinSplit(s: string, sep: char)
    ensures Join(Split(s, sep), sep) == s
    decreases |s|
  {
    if s != [] {
      JoinSplit(s[1..], sep);
      var rest := Split(s[1..], sep);
      if s[0] != sep && |rest| > 1 {
        assert ([[s[0]] + rest[0]] + rest[1..])[1..] == rest[1..];
      }
    }
  }

  /** The first field ends at the first separator. */
  lemma {:induction false} SplitAt(a: string, b: string, sep: char)
    requires sep !in a
    ensures Split(a + [sep] + b, sep) == [a] + Split(b, sep)
    decreases |a|
  {
    if a != [] {
      assert (a + [sep] + b)[1..] == a[1..] + [sep] + b;
      SplitAt(a[1..], b, sep);
      assert [a[0]] + a[1..] == a;
    } else {
      assert (a + [sep] + b)[1..] == b;
    }
  }

  lemma {:induction false} SplitNone(a: string, sep: char)
    requires sep !in a
    ensures Split(a, sep) == [a]
    decreases |a|
  {
    if a != [] {
      SplitNone(a[1..], sep);
      assert [a[0]] + a[1..] == a;
    }
  }

  // ---------------------------------------------------------------------------
  // Digits, `String(n)` for a non-negative integer, and `parseInt(s)`.

  predicate IsDigit(c: char, radix: nat)
  {
    ('0' <= c <= '9' && (c as int) - ('0' as int) < radix)
    || (radix == 16 && ('a' <= c <= 'f' || 'A' <= c <= 'F'))
  }

  function DigitValue(c: char, radix: nat): (v: nat)
    requires IsDigit(c, radix)
    ensures v < radix
  {
    if '0' <= c <= '9' then (c as int) - ('0' as int)
    else if 'a' <= c <= 'f' then (c as int) - ('a' as int) + 10
    else (c as int) - ('A' as int) + 10
  }

  /** The lower-case digit for a value below 16. */
  function DigitChar(v: nat): (c: char)
    requires v < 16
    ensures IsDigit(c, 16) && DigitValue(c, 16) == v
    ensures v < 10 ==> IsDigit(c, 10) && DigitValue(c, 10) == v
    ensures '0' <= c <= '9' || 'a' <= c <= 'f'
  {
    if v < 10 then ((('0' as int) + v) as char) else ((('a' as int) + v - 10) as char)
  }

  /** The decimal form JavaScript gives a non-negative integer: digits, no leading zero. */
  function Decimal(n: nat): (r: string)
    ensures |r| >= 1 && (r[0] == '0' <==> n == 0)
    ensures forall i :: 0 <= i < |r| ==> IsDigit(r[i], 10)
  {
    if n < 10 then [DigitChar(n)] else Decimal(n / 10) + [DigitChar(n % 10)]
  }

  /** The value of a run of digits, most significant first. */
  function ValueOf(digits: string, radix: nat): nat
    requires forall i :: 0 <= i < |digits| ==> IsDigit(digits[i], radix)
  {
    if digits == [] then 0
    else ValueOf(digits[..|digits| - 1], radix) * radix + DigitValue(digits[|digits| - 1], radix)
  }

  /** The longest prefix of `s` made of digits in the radix. */
  function DigitRun(s: string, radix: nat): (r: string)
    ensures r <= s
    ensures forall i :: 0 <= i < |r| ==> IsDigit(r[i], radix)
    ensures |r| < |s| ==> !IsDigit(s[|r|], radix)
  {
    if s != [] && IsDigit(s[0], radix) then [s[0]] + DigitRun(s[1..], radix) else []
  }

  /** The characters `parseInt` skips at the start: ECMAScript WhiteSpace and LineTerminator. */
  predicate IsJsWhiteSpace(c: char)
  {
    c == '\t' || c == '\U{000B}' || c == '\U{000C}' || c == ' ' || c == '\U{00A0}' || c == '\U{FEFF}'
    || c == '\U{1680}' || ('\U{2000}' <= c <= '\U{200A}') || c == '\U{202F}' || c == '\U{205F}'
    || c == '\U{3000}' || c == '\n' || c == '\r' || c == '\U{2028}' || c == '\U{2029}'
  }

  function TrimStart(s: string): (r: string)
    ensures |r| <= |s| && r == s[|s| - |r|..]
    ensures forall i :: 0 <= i < |s| - |r| ==> IsJsWhiteSpace(s[i])
    ensures r == [] || !IsJsWhiteSpace(r[0])
  {
    if s != [] && IsJsWhiteSpace(s[0]) then TrimStart(s[1..]) else s
  }

  /**
   * `parseInt(s)` without a radix: leading white space skipped, an optional sign,
   * a `0x`/`0X` prefix selecting radix 16, then the longest run of digits.
   * None stands for NaN (no digit at all).
   */
  function ParseInt(s: string): Option<int>
  {
    ParseSigned(TrimStart(s))
  }

  /** An optional sign, then the magnitude. */
  function ParseSigned(t: string): Option<int>
  {
    var negative := |t| > 0 && t[0] == '-';
    var u := if |t| > 0 && (t[0] == '+' || t[0] == '-') then t[1..] else t;
    match ParseMagnitude(u)
    case None => None
    case Some(magnitude) =>
      var m: int := magnitude;
      var value: int := if negative then -m else m;
      Some(value)
  }

  /** A `0x`/`0X` prefix selects radix 16; then the value of the longest run of digits. */
  function ParseMagnitude(u: string): Option<nat>
  {
    var hex := |u| >= 2 && u[0] == '0' && (u[1] == 'x' || u[1] == 'X');
    var radix := if hex then 16 else 10;
    var z := DigitRun(if hex then u[2..] else u, radix);
    if z == [] then None else Some(ValueOf(z, radix))
  }

  lemma {:induction false} ValueOfDecimal(n: nat)
    ensures ValueOf(Decimal(n), 10) == n
  {
    if n >= 10 {
      var d := Decimal(n);
      assert d[..|d| - 1] == Decimal(n / 10);
      ValueOfDecimal(n / 10);
    }
  }

  lemma DigitRunAll(s: string, radix: nat)
    requires forall i :: 0 <= i < |s| ==> IsDigit(s[i], radix)
    ensures DigitRun(s, radix) == s
  {
  }

  /** On a string of decimal digits, parseInt reads the whole string. */
  lemma ParseIntDigits(t: string)
    requires |t| > 0 && forall i :: 0 <= i < |t| ==> IsDigit(t[i], 10)
    ensures ParseInt(t) == Some(ValueOf(t, 10))
  {
    DigitNotSpace(t[0]);
    TrimStartNoSpace(t);
    ParseMagnitudeDigits(t);
    ParseSignedUnsigned(t);
  }

  lemma ParseSignedUnsigned(t: string)
    requires |t| > 0 && t[0] != '+' && t[0] != '-'
    ensures ParseSigned(t) == ParseMagnitude(t)
  {
  }

  lemma DigitNotSpace(c: char)
    requires IsDigit(c, 10)
    ensures !IsJsWhiteSpace(c) && c != '+' && c != '-'
  {
  }

  lemma TrimStartNoSpace(s: string)
    requires s == [] || !IsJsWhiteSpace(s[0])
    ensures TrimStart(s) == s
  {
  }

  lemma ParseMagnitudeDigits(t: string)
    requires |t| > 0 && forall i :: 0 <= i < |t| ==> IsDigit(t[i], 10)
    ensures ParseMagnitude(t) == Some(ValueOf(t, 10))
  {
    assert |t| >= 2 ==> IsDigit(t[1], 10) && t[1] != 'x' && t[1] != 'X';
    DigitRunAll(t, 10);
  }

  /** `parseInt(String(n)) === n`: formatting a number and parsing it back is the identity. */
  lemma ParseIntDecimal(n: nat)
    ensures ParseInt(Decimal(n)) == Some(n)
  {
    ParseIntDigits(Decimal(n));
    ValueOfDecimal(n);
  }

  // ---------------------------------------------------------------------------
  // `buffer.toString('hex')`.

  /** Two lower-case hex digits per byte, high nibble first. */
  function Hex(bytes: seq<byte>): (r: string)
    ensures |r| == 2 * |bytes|
    ensures forall i :: 0 <= i < |r| ==> '0' <= r[i] <= '9' || 'a' <= r[i] <= 'f'
  {
    if bytes == [] then []
    else [DigitChar(bytes[0] as nat / 16), DigitChar(bytes[0] as nat % 16)] + Hex(bytes[1..])
  }

  /** Reads hex text back into bytes (either case); None for odd length or a non-hex character. */
  function Unhex(s: string): Option<seq<byte>>
  {
    if s == [] then Some([])
    else if |s| < 2 || !IsDigit(s[0], 16) || !IsDigit(s[1], 16) then None
    else
      match Unhex(s[2..])
      case None => None
      case Some(rest) => Some([(DigitValue(s[0], 16) * 16 + DigitValue(s[1], 16)) as byte] + rest)
  }

  /** Hex encoding loses nothing: its text decodes back to the same bytes. */
  lemma {:induction false} UnhexHex(bytes: seq<byte>)
    ensures Unhex(Hex(bytes)) == Some(bytes)
  {
    if bytes != [] {
      var h := Hex(bytes);
      assert h[2..] == Hex(bytes[1..]);
      UnhexHex(bytes[1..]);
      assert [bytes[0]] + bytes[1..] == bytes;
    }
  }
}
