/** `normalizeUrl` of lib/utils.js: address-bar text becomes a URL. The trimmed
    text is classified four ways: empty (go home), already carrying an http or https
    scheme (kept), a bare host name such as `example.com` (https is prepended), or
    anything else (a search query). `trim` and `encodeURIComponent` follow
    ECMAScript (section 22.1.3.32 and section 19.2.6.5 of ECMA-262, 2022 edition). */
module Utils {
  import opened Wrappers

  const Home := "https://www.google.com"
  const SearchPrefix := "https://www.google.com/search?q="

  // ---------------------------------------------------------------- trim

  /** The WhiteSpace and LineTerminator code points that `String.prototype.trim`
      strips: TAB, LF, VT, FF, CR, SPACE, NBSP, the other space separators of
      category Zs, LS, PS and the byte-order mark. */
  predicate IsJsSpace(c: char)
  {
    var n := c as int;
    || n == 0x09 || n == 0x0A || n == 0x0B || n == 0x0C || n == 0x0D
    || n == 0x20 || n == 0xA0 || n == 0x1680 || 0x2000 <= n <= 0x200A
    || n == 0x2028 || n == 0x2029 || n == 0x202F || n == 0x205F || n == 0x3000
    || n == 0xFEFF
  }

  predicate AllSpace(s: string)
  {
    forall k | 0 <= k < |s| :: IsJsSpace(s[k])
  }

  /** Neither end is white space. */
  predicate Clean(s: string)
  {
    |s| == 0 || (!IsJsSpace(s[0]) && !IsJsSpace(s[|s| - 1]))
  }

  /** How many white-space characters `s` starts with. */
  function LeadingSpace(s: string): (n: nat)
    ensures n <= |s|
    ensures forall k | 0 <= k < n :: IsJsSpace(s[k])
    ensures n < |s| ==> !IsJsSpace(s[n])
    decreases |s|
  {
    if |s| > 0 && IsJsSpace(s[0]) then
      var n := 1 + LeadingSpace(s[1..]);
      assert forall k | 1 <= k < n :: s[k] == s[1..][k - 1];
      n
    else 0
  }

  /** How many white-space characters `s` ends with. */
  function TrailingSpace(s: string): (n: nat)
    ensures n <= |s|
    ensures forall k | |s| - n <= k < |s| :: IsJsSpace(s[k])
    ensures n < |s| ==> !IsJsSpace(s[|s| - 1 - n])
    decreases |s|
  {
    if |s| > 0 && IsJsSpace(s[|s| - 1]) then
      var n := 1 + TrailingSpace(s[..|s| - 1]);
      assert forall k | |s| - n <= k < |s| - 1 :: s[k] == s[..|s| - 1][k];
      n
    else 0
  }

  /** `r` is `s` with only white space removed around it. */
  ghost predicate IsPaddingOf(s: string, r: string)
  {
    exists i | 0 <= i <= |s| - |r| :: s[i..i + |r|] == r && AllSpace(s[..i]) && AllSpace(s[i + |r|..])
  }

  /** `String.prototype.trim`: the text between the leading and trailing white
      space. It is empty exactly when the input is all white space. */
  function Trim(s: string): (r: string)
    ensures Clean(r)
    ensures |r| == 0 <==> AllSpace(s)
    ensures IsPaddingOf(s, r)
  {
    var i := LeadingSpace(s);
    if i == |s| then
      BlankTrim(s);
      ""
    else
      var j := |s| - TrailingSpace(s);
      TrimmedMiddle(s, i, j);
      s[i..j]
  }

  lemma BlankTrim(s: string)
    requires forall k | 0 <= k < |s| :: IsJsSpace(s[k])
    ensures AllSpace(s) && IsPaddingOf(s, "")
  {
    PaddingWitness(s, |s|, "");
  }

  lemma TrimmedMiddle(s: string, i: nat, j: int)
    requires i < |s| && !IsJsSpace(s[i])
    requires forall k | 0 <= k < i :: IsJsSpace(s[k])
    requires 0 <= j <= |s| && forall k | j <= k < |s| :: IsJsSpace(s[k])
    requires 0 < j ==> !IsJsSpace(s[j - 1])
    ensures i < j
    ensures Clean(s[i..j]) && !AllSpace(s) && IsPaddingOf(s, s[i..j])
  {
    assert i < j;
    PaddingWitness(s, i, s[i..j]);
  }

  lemma PaddingWitness(s: string, i: nat, r: string)
    requires i + |r| <= |s| && s[i..i + |r|] == r
    requires forall k | 0 <= k < i :: IsJsSpace(s[k])
    requires forall k | i + |r| <= k < |s| :: IsJsSpace(s[k])
    ensures IsPaddingOf(s, r)
  {
    assert AllSpace(s[..i]);
    assert AllSpace(s[i + |r|..]);
  }

  lemma {:induction false} LeadingSpacePadded(pre: string, t: string)
    requires AllSpace(pre)
    requires |t| == 0 || !IsJsSpace(t[0])
    ensures LeadingSpace(pre + t) == |pre|
    decreases |pre|
  {
    if |pre| > 0 {
      assert (pre + t)[1..] == pre[1..] + t;
      LeadingSpacePadded(pre[1..], t);
    } else {
      assert pre + t == t;
    }
  }

  lemma {:induction false} TrailingSpacePadded(t: string, post: string)
    requires AllSpace(post)
    requires |t| == 0 || !IsJsSpace(t[|t| - 1])
    ensures TrailingSpace(t + post) == |post|
    decreases |post|
  {
    if |post| > 0 {
      var last := |post| - 1;
      assert (t + post)[..|t + post| - 1] == t + post[..last];
      TrailingSpacePadded(t, post[..last]);
    } else {
      assert t + post == t;
    }
  }

  /** Trimming recovers any clean text from around white-space padding. */
  lemma TrimPadded(pre: string, t: string, post: string)
    requires AllSpace(pre) && AllSpace(post)
    requires Clean(t)
    ensures Trim(pre + t + post) == t
  {
    var s := pre + t + post;
    if |t| == 0 {
      assert s == pre + post + "";
      LeadingSpacePadded(pre + post, "");
    } else {
      assert s == pre + (t + post);
      LeadingSpacePadded(pre, t + post);
      TrailingSpacePadded(pre + t, post);
      assert s[|pre|..|s| - |post|] == t;
    }
  }

  /** Clean text is its own trim. */
  lemma TrimClean(s: string)
    requires Clean(s)
    ensures Trim(s) == s
  {
    TrimPadded("", s, "");
    assert "" + s + "" == s;
  }

  // ---------------------------------------------------------------- ASCII classes

  predicate IsAsciiLetter(c: char)
  {
    'a' <= c <= 'z' || 'A' <= c <= 'Z'
  }

  predicate IsDigit(c: char)
  {
    '0' <= c <= '9'
  }

  /** A character of the regular-expression class `[\w.-]`. */
  predicate IsHostChar(c: char)
  {
    IsAsciiLetter(c) || IsDigit(c) || c == '_' || c == '.' || c == '-'
  }

  /** Case folding of a regular expression with the `i` flag and no `u` flag: only
      ASCII letters fold onto the pattern's ASCII letters. */
  function Lower(c: char): char
  {
    if 'A' <= c <= 'Z' then (c as int + 32) as char else c
  }

  predicate StartsWithIgnoringCase(s: string, prefix: string)
  {
    |prefix| <= |s| && forall k | 0 <= k < |prefix| :: Lower(s[k]) == prefix[k]
  }

  /** `/^https?:\/\//i`. */
  predicate HasScheme(s: string)
  {
    StartsWithIgnoringCase(s, "http://") || StartsWithIgnoringCase(s, "https://")
  }

  // ---------------------------------------------------------------- host names

  /** The last position of `c`, or -1. */
  function LastIndexOf(s: string, c: char): (i: int)
    ensures -1 <= i < |s|
    ensures 0 <= i ==> s[i] == c
    ensures forall k | i < k < |s| :: s[k] != c
  {
    if |s| == 0 then -1
    else if s[|s| - 1] == c then |s| - 1
    else LastIndexOf(s[..|s| - 1], c)
  }

  /** The test the code evaluates, read through the last dot: only `[\w.-]`
      characters, at least one before the last dot, and at least two ASCII letters
      and nothing else after it. */
  predicate IsHostLike(s: string)
  {
    && (forall k | 0 <= k < |s| :: IsHostChar(s[k]))
    && var d := LastIndexOf(s, '.');
       && 1 <= d
       && d + 3 <= |s|
       && forall k | d < k < |s| :: IsAsciiLetter(s[k])
  }

  /** `/^[\w.-]+\.[a-z]{2,}$/i` read literally: the text splits at some dot into a
      non-empty run of `[\w.-]`, the dot, and a run of two or more letters. */
  ghost predicate MatchesHostPattern(s: string)
  {
    exists d | 1 <= d && d + 3 <= |s| ::
      && s[d] == '.'
      && (forall k | 0 <= k < d :: IsHostChar(s[k]))
      && (forall k | d < k < |s| :: IsAsciiLetter(s[k]))
  }

  /** The last-dot reading and the regular expression accept the same texts. */
  lemma HostLikeIffPattern(s: string)
    ensures IsHostLike(s) <==> MatchesHostPattern(s)
  {
    var d := LastIndexOf(s, '.');
    if IsHostLike(s) {
      assert s[d] == '.';
    }
    if MatchesHostPattern(s) {
      var e :| 1 <= e && e + 3 <= |s| && s[e] == '.'
               && (forall k | 0 <= k < e :: IsHostChar(s[k]))
               && (forall k | e < k < |s| :: IsAsciiLetter(s[k]));
      assert d >= e;
      assert forall k | 0 <= k < |s| :: IsHostChar(s[k]) by {
        forall k | 0 <= k < |s| ensures IsHostChar(s[k]) {
          if k > e { assert IsAsciiLetter(s[k]); }
        }
      }
    }
  }

  // ---------------------------------------------------------------- encodeURIComponent

  /** The characters `encodeURIComponent` leaves alone: ASCII letters, digits and
      `-_.!~*'()`. */
  predicate IsUnreserved(c: char)
  {
    IsAsciiLetter(c) || IsDigit(c) || c == '-' || c == '_' || c == '.' || c == '!'
    || c == '~' || c == '*' || c == '\'' || c == '(' || c == ')'
  }

  /** An upper-case hexadecimal digit. */
  function HexDigit(n: int): (c: char)
    requires 0 <= n < 16
    ensures IsUnreserved(c)
  {
    "0123456789ABCDEF"[n]
  }

  /** The value of a hexadecimal digit of either case, or -1. */
  function HexValue(c: char): (v: int)
    ensures -1 <= v < 16
  {
    if '0' <= c <= '9' then c as int - '0' as int
    else if 'A' <= c <= 'F' then c as int - 'A' as int + 10
    else if 'a' <= c <= 'f' then c as int - 'a' as int + 10
    else -1
  }

  lemma HexRoundTrip(n: int)
    requires 0 <= n < 16
    ensures HexValue(HexDigit(n)) == n
  {
  }

  predicate IsByte(b: int)
  {
    0 <= b < 256
  }

  /** UTF-8 encoding of one code point, continuation bytes split off six bits at a
      time from the low end. */
  function Utf8(c: char): (bs: seq<int>)
    ensures 1 <= |bs| <= 4
    ensures forall k | 0 <= k < |bs| :: IsByte(bs[k])
  {
    var cp := c as int;
    if cp < 0x80 then [cp]
    else if cp < 0x800 then [0xC0 + cp / 64, 0x80 + cp % 64]
    else if cp < 0x10000 then
      var hi := cp / 64;
      [0xE0 + hi / 64, 0x80 + hi % 64, 0x80 + cp % 64]
    else
      var hi := cp / 64;
      var top := hi / 64;
      [0xF0 + top / 64, 0x80 + top % 64, 0x80 + hi % 64, 0x80 + cp % 64]
  }

  /** `%XX` with upper-case hex for each byte. */
  function Percent(bs: seq<int>): (r: string)
    requires forall k | 0 <= k < |bs| :: IsByte(bs[k])
    ensures |r| == 3 * |bs|
  {
    if |bs| == 0 then ""
    else
      var b := bs[0];
      assert IsByte(b);
      ['%', HexDigit(b / 16), HexDigit(b % 16)] + Percent(bs[1..])
  }

  function EncodeChar(c: char): (r: string)
    ensures 1 <= |r|
  {
    if IsUnreserved(c) then [c] else Percent(Utf8(c))
  }

  /** `encodeURIComponent`: unreserved characters pass through, every other code
      point becomes the `%XX` escapes of its UTF-8 bytes. The result is plain ASCII
      made of unreserved characters and `%`. */
  function EncodeUriComponent(s: string): (r: string)
    ensures |s| <= |r|
  {
    if |s| == 0 then "" else EncodeChar(s[0]) + EncodeUriComponent(s[1..])
  }

  /** Only unreserved characters and `%` escapes come out of the encoder. */
  predicate IsEncodedText(s: string)
  {
    forall k | 0 <= k < |s| :: IsUnreserved(s[k]) || s[k] == '%'
  }

  lemma EncodedConcat(a: string, b: string)
    requires IsEncodedText(a) && IsEncodedText(b)
    ensures IsEncodedText(a + b)
  {
    assert forall k | |a| <= k < |a + b| :: (a + b)[k] == b[k - |a|];
  }

  lemma {:induction false} PercentIsEncoded(bs: seq<int>)
    requires forall k | 0 <= k < |bs| :: IsByte(bs[k])
    ensures IsEncodedText(Percent(bs))
    decreases |bs|
  {
    if |bs| > 0 {
      var b := bs[0];
      assert IsByte(b);
      PercentIsEncoded(bs[1..]);
      EncodedConcat(['%', HexDigit(b / 16), HexDigit(b % 16)], Percent(bs[1..]));
    }
  }

  lemma {:induction false} EncodeUriComponentIsEncoded(s: string)
    ensures IsEncodedText(EncodeUriComponent(s))
    decreases |s|
  {
    if |s| > 0 {
      if !IsUnreserved(s[0]) {
        PercentIsEncoded(Utf8(s[0]));
      }
      EncodeUriComponentIsEncoded(s[1..]);
      EncodedConcat(EncodeChar(s[0]), EncodeUriComponent(s[1..]));
    }
  }

  // ---------------------------------------------------------------- the inverse

  /** The byte written as `%XX` at position k, if there is one. */
  function ByteAt(s: string, k: nat): Option<int>
  {
    if k + 3 <= |s| && s[k] == '%' && HexValue(s[k + 1]) >= 0 && HexValue(s[k + 2]) >= 0
    then Some(HexValue(s[k + 1]) * 16 + HexValue(s[k + 2]))
    else None
  }

  predicate IsContinuation(b: Option<int>)
  {
    b.Some? && 0x80 <= b.value < 0xC0
  }

  function ToChar(cp: int): Option<char>
  {
    if 0 <= cp < 0xD800 || 0xE000 <= cp < 0x110000 then Some(cp as char) else None
  }

  function Taking(c: Option<char>, n: nat): Option<(char, nat)>
  {
    match c
    case None => None
    case Some(ch) => Some((ch, n))
  }

  /** The first character of a percent-encoded text and how many characters of the
      text it took. */
  function DecodeOne(s: string): (r: Option<(char, nat)>)
    requires |s| > 0
    ensures r.Some? ==> 1 <= r.value.1 <= |s|
  {
    if s[0] != '%' then Some((s[0], 1))
    else
      var b0 := ByteAt(s, 0);
      if b0.None? then None
      else if b0.value < 0x80 then Taking(ToChar(b0.value), 3)
      else if 0xC0 <= b0.value < 0xE0 then
        var b1 := ByteAt(s, 3);
        if !IsContinuation(b1) then None
        else Taking(ToChar((b0.value - 0xC0) * 64 + (b1.value - 0x80)), 6)
      else if 0xE0 <= b0.value < 0xF0 then
        var b1, b2 := ByteAt(s, 3), ByteAt(s, 6);
        if !IsContinuation(b1) || !IsContinuation(b2) then None
        else Taking(ToChar(((b0.value - 0xE0) * 64 + (b1.value - 0x80)) * 64 + (b2.value - 0x80)), 9)
      else if 0xF0 <= b0.value < 0xF8 then
        var b1, b2, b3 := ByteAt(s, 3), ByteAt(s, 6), ByteAt(s, 9);
        if !IsContinuation(b1) || !IsContinuation(b2) || !IsContinuation(b3) then None
        else Taking(ToChar((((b0.value - 0xF0) * 64 + (b1.value - 0x80)) * 64 + (b2.value - 0x80)) * 64 + (b3.value - 0x80)), 12)
      else None
  }

  /** Percent-decoding with UTF-8, the inverse of `EncodeUriComponent`; None for
      text that is not a valid encoding. */
  function PercentDecode(s: string): Option<string>
    decreases |s|
  {
    if |s| == 0 then Some("")
    else
      match DecodeOne(s)
      case None => None
      case Some((c, n)) =>
        match PercentDecode(s[n..])
        case None => None
        case Some(rest) => Some([c] + rest)
  }

  lemma ByteAtShift(a: string, x: string, k: nat, i: nat)
    requires i == |a| + k
    ensures ByteAt(a + x, i) == ByteAt(x, k)
  {
    if k + 3 <= |x| {
      assert (a + x)[i] == x[k];
      assert (a + x)[i + 1] == x[k + 1];
      assert (a + x)[i + 2] == x[k + 2];
    }
  }

  lemma ByteOfPercent(b: int, rest: string)
    requires IsByte(b)
    ensures ByteAt(['%', HexDigit(b / 16), HexDigit(b % 16)] + rest, 0) == Some(b)
  {
    HexRoundTrip(b / 16);
    HexRoundTrip(b % 16);
  }

  /** Byte k of the bytes sits, percent-encoded, at position 3k. */
  lemma {:induction false} PercentByteAt(bs: seq<int>, k: nat, i: nat, rest: string)
    requires forall j | 0 <= j < |bs| :: IsByte(bs[j])
    requires k < |bs| && i == 3 * k
    ensures ByteAt(Percent(bs) + rest, i) == Some(bs[k])
    decreases k
  {
    var head := PercentUnfold(bs);
    var tail := Percent(bs[1..]) + rest;
    assert Percent(bs) + rest == head + tail;
    if k == 0 {
      ByteOfPercent(bs[0], tail);
    } else {
      assert ByteAt(tail, i - 3) == Some(bs[k]) by {
        var more := bs[1..];
        assert forall j | 0 <= j < |more| :: more[j] == bs[j + 1];
        PercentByteAt(more, k - 1, i - 3, rest);
      }
      ByteAtShift(head, tail, i - 3, i);
    }
  }

  /** The escape of the first byte, split off the front of `Percent(bs)`. */
  lemma PercentUnfold(bs: seq<int>) returns (head: string)
    requires forall j | 0 <= j < |bs| :: IsByte(bs[j])
    requires |bs| > 0
    ensures IsByte(bs[0])
    ensures head == ['%', HexDigit(bs[0] / 16), HexDigit(bs[0] % 16)]
    ensures Percent(bs) == head + Percent(bs[1..])
  {
    head := ['%', HexDigit(bs[0] / 16), HexDigit(bs[0] % 16)];
  }

  lemma DecodeOneByte(s: string, cp: int)
    requires 0 <= cp < 0x80
    requires |s| > 0 && s[0] == '%' && ByteAt(s, 0) == Some(cp)
    ensures DecodeOne(s) == Taking(ToChar(cp), 3)
  {
  }

  lemma DecodeTwoBytes(s: string, cp: int)
    requires 0x80 <= cp < 0x800
    requires |s| > 0 && s[0] == '%'
    requires ByteAt(s, 0) == Some(0xC0 + cp / 64) && ByteAt(s, 3) == Some(0x80 + cp % 64)
    ensures DecodeOne(s) == Taking(ToChar(cp), 6)
  {
    assert (cp / 64) * 64 + cp % 64 == cp;
  }

  lemma DecodeThreeBytes(s: string, cp: int)
    requires 0x800 <= cp < 0x10000
    requires |s| > 0 && s[0] == '%'
    requires ByteAt(s, 0) == Some(0xE0 + (cp / 64) / 64)
    requires ByteAt(s, 3) == Some(0x80 + (cp / 64) % 64)
    requires ByteAt(s, 6) == Some(0x80 + cp % 64)
    ensures DecodeOne(s) == Taking(ToChar(cp), 9)
  {
    var hi := cp / 64;
    assert hi * 64 + cp % 64 == cp;
    assert (hi / 64) * 64 + hi % 64 == hi;
  }

  lemma DecodeFourBytes(s: string, cp: int)
    requires 0x10000 <= cp < 0x110000
    requires |s| > 0 && s[0] == '%'
    requires ByteAt(s, 0) == Some(0xF0 + ((cp / 64) / 64) / 64)
    requires ByteAt(s, 3) == Some(0x80 + ((cp / 64) / 64) % 64)
    requires ByteAt(s, 6) == Some(0x80 + (cp / 64) % 64)
    requires ByteAt(s, 9) == Some(0x80 + cp % 64)
    ensures DecodeOne(s) == Taking(ToChar(cp), 12)
  {
    var hi := cp / 64;
    var top := hi / 64;
    assert hi * 64 + cp % 64 == cp;
    assert top * 64 + hi % 64 == hi;
    assert (top / 64) * 64 + top % 64 == top;
  }

  lemma DecodeEscaped(c: char, rest: string)
    requires !IsUnreserved(c)
    ensures DecodeOne(Percent(Utf8(c)) + rest) == Some((c, 3 * |Utf8(c)|))
  {
    var cp := c as int;
    assert ToChar(cp) == Some(c);
    if cp < 0x80 {
      DecodeEscapedOne(c, rest);
    } else if cp < 0x800 {
      DecodeEscapedTwo(c, rest);
    } else if cp < 0x10000 {
      DecodeEscapedThree(c, rest);
    } else {
      DecodeEscapedFour(c, rest);
    }
  }

  lemma DecodeEscapedOne(c: char, rest: string)
    requires c as int < 0x80
    ensures DecodeOne(Percent(Utf8(c)) + rest) == Taking(ToChar(c as int), 3)
  {
    var bs := Utf8(c);
    var head := PercentUnfold(bs);
    PercentByteAt(bs, 0, 0, rest);
    DecodeOneByte(Percent(bs) + rest, c as int);
  }

  lemma DecodeEscapedTwo(c: char, rest: string)
    requires 0x80 <= c as int < 0x800
    ensures DecodeOne(Percent(Utf8(c)) + rest) == Taking(ToChar(c as int), 6)
  {
    var bs := Utf8(c);
    var head := PercentUnfold(bs);
    PercentByteAt(bs, 0, 0, rest);
    PercentByteAt(bs, 1, 3, rest);
    DecodeTwoBytes(Percent(bs) + rest, c as int);
  }

  lemma DecodeEscapedThree(c: char, rest: string)
    requires 0x800 <= c as int < 0x10000
    ensures DecodeOne(Percent(Utf8(c)) + rest) == Taking(ToChar(c as int), 9)
  {
    var bs := Utf8(c);
    var head := PercentUnfold(bs);
    PercentByteAt(bs, 0, 0, rest);
    PercentByteAt(bs, 1, 3, rest);
    PercentByteAt(bs, 2, 6, rest);
    DecodeThreeBytes(Percent(bs) + rest, c as int);
  }

  lemma DecodeEscapedFour(c: char, rest: string)
    requires 0x10000 <= c as int
    ensures DecodeOne(Percent(Utf8(c)) + rest) == Taking(ToChar(c as int), 12)
  {
    var bs := Utf8(c);
    var head := PercentUnfold(bs);
    PercentByteAt(bs, 0, 0, rest);
    PercentByteAt(bs, 1, 3, rest);
    PercentByteAt(bs, 2, 6, rest);
    PercentByteAt(bs, 3, 9, rest);
    DecodeFourBytes(Percent(bs) + rest, c as int);
  }

  /** Decoding the start of an encoded character gives the character back and
      consumes exactly its encoding. */
  lemma DecodeOneEncodeChar(c: char, rest: string)
    ensures DecodeOne(EncodeChar(c) + rest) == Some((c, |EncodeChar(c)|))
  {
    if !IsUnreserved(c) {
      DecodeEscaped(c, rest);
    }
  }

  /** `EncodeUriComponent` loses nothing: percent-decoding gives the text back. */
  lemma {:induction false} DecodeEncode(s: string)
    ensures PercentDecode(EncodeUriComponent(s)) == Some(s)
    decreases |s|
  {
    if |s| > 0 {
      var head := EncodeChar(s[0]);
      var tail := EncodeUriComponent(s[1..]);
      assert EncodeUriComponent(s) == head + tail;
      DecodeOneEncodeChar(s[0], tail);
      DecodeEncode(s[1..]);
      assert (head + tail)[|head|..] == tail;
      DecodeStep(head + tail, s[0], |head|, s[1..]);
      assert [s[0]] + s[1..] == s;
    }
  }

  /** One step of `PercentDecode`: the first character, then the rest. */
  lemma DecodeStep(s: string, c: char, n: nat, rest: string)
    requires |s| > 0 && DecodeOne(s) == Some((c, n)) && n <= |s|
    requires PercentDecode(s[n..]) == Some(rest)
    ensures PercentDecode(s) == Some([c] + rest)
  {
  }

  // ---------------------------------------------------------------- normalizeUrl

  /** `normalizeUrl(input)`. Whatever the input, the result starts with an http or
      https scheme and has no white space at either end. */
  function NormalizeUrl(input: string): (r: string)
    ensures HasScheme(r)
    ensures |r| > 0 && Clean(r)
  {
    var t := Trim(input);
    if |t| == 0 then LiteralFacts(); Home
    else if HasScheme(t) then t
    else if IsHostLike(t) then WithHttps(t)
    else SearchFor(t)
  }

  /** The URL of a bare host name. */
  function WithHttps(t: string): (r: string)
    requires Clean(t)
    ensures HasScheme(r) && |r| > 0 && Clean(r)
    ensures |r| == |t| + 8 && r[..8] == "https://" && r[8..] == t
  {
    LiteralFacts();
    SchemePlus("https://", t);
    "https://" + t
  }

  /** The search URL for a query. */
  function SearchFor(t: string): (r: string)
    ensures HasScheme(r) && |r| > 0 && Clean(r)
    ensures |SearchPrefix| <= |r| && r[..|SearchPrefix|] == SearchPrefix
    ensures PercentDecode(r[|SearchPrefix|..]) == Some(t)
  {
    var q := EncodeUriComponent(t);
    LiteralFacts();
    EncodeUriComponentIsEncoded(t);
    EncodedIsClean(q);
    SchemePlus(SearchPrefix, q);
    DecodeEncode(t);
    assert (SearchPrefix + q)[|SearchPrefix|..] == q;
    SearchPrefix + q
  }

  /** The three string constants of `normalizeUrl` carry a scheme and end in no
      white space. Each literal is unfolded in a lemma of its own: unfolded
      together, the three character-by-character checks are too large for one
      proof obligation. */
  lemma LiteralFacts()
    ensures HasScheme("https://") && Clean("https://")
    ensures HasScheme(Home) && |Home| > 0 && Clean(Home)
    ensures HasScheme(SearchPrefix) && Clean(SearchPrefix)
  {
    HttpsFacts();
    HomeFacts();
    SearchPrefixFacts();
  }

  lemma HttpsFacts()
    ensures HasScheme("https://") && Clean("https://")
  {
  }

  lemma HomeFacts()
    ensures HasScheme(Home) && |Home| > 0 && Clean(Home)
  {
  }

  lemma SearchPrefixFacts()
    ensures HasScheme(SearchPrefix) && Clean(SearchPrefix)
  {
  }

  /** Appending text with no white space at its end to a URL keeps its scheme and
      leaves it clean. */
  lemma SchemePlus(p: string, x: string)
    requires HasScheme(p) && Clean(p) && Clean(x)
    ensures HasScheme(p + x) && |p + x| > 0 && Clean(p + x)
  {
    var s := p + x;
    assert forall k | 0 <= k < |p| :: s[k] == p[k];
    assert s[|s| - 1] == if |x| > 0 then x[|x| - 1] else p[|p| - 1];
  }

  lemma EncodedIsClean(q: string)
    requires IsEncodedText(q)
    ensures Clean(q)
  {
    if |q| > 0 {
      assert IsUnreserved(q[0]) || q[0] == '%';
      assert IsUnreserved(q[|q| - 1]) || q[|q| - 1] == '%';
    }
  }

  /** Empty or all-white-space input goes to the home page. */
  lemma BlankGoesHome(input: string)
    requires AllSpace(input)
    ensures NormalizeUrl(input) == Home
  {
  }

  /** Input carrying a scheme comes back with only its padding removed. */
  lemma SchemeKept(pre: string, t: string, post: string)
    requires AllSpace(pre) && AllSpace(post) && Clean(t)
    requires HasScheme(t)
    ensures NormalizeUrl(pre + t + post) == t
  {
    TrimPadded(pre, t, post);
  }

  /** A bare host name (in the sense of the code's regular expression) gets https
      put in front of it. */
  lemma HostGetsHttps(pre: string, t: string, post: string)
    requires AllSpace(pre) && AllSpace(post) && Clean(t)
    requires !HasScheme(t) && MatchesHostPattern(t)
    ensures NormalizeUrl(pre + t + post) == "https://" + t
  {
    TrimPadded(pre, t, post);
    HostLikeIffPattern(t);
    assert |t| > 0;
  }

  /** Everything else becomes a search whose query decodes back to exactly the
      trimmed input. */
  lemma OtherTextSearched(pre: string, t: string, post: string)
    requires AllSpace(pre) && AllSpace(post) && Clean(t)
    requires |t| > 0 && !HasScheme(t) && !MatchesHostPattern(t)
    ensures NormalizeUrl(pre + t + post) == SearchPrefix + EncodeUriComponent(t)
    ensures PercentDecode(NormalizeUrl(pre + t + post)[|SearchPrefix|..]) == Some(t)
  {
    TrimPadded(pre, t, post);
    HostLikeIffPattern(t);
    DecodeEncode(t);
    assert (SearchPrefix + EncodeUriComponent(t))[|SearchPrefix|..] == EncodeUriComponent(t);
  }

  /** Normalising a normalised URL changes nothing. */
  lemma NormalizeIdempotent(input: string)
    ensures NormalizeUrl(NormalizeUrl(input)) == NormalizeUrl(input)
  {
    TrimClean(NormalizeUrl(input));
  }

  /** `encodeURIComponent` changes nothing in text made only of unreserved
      characters, so a single word such as `openai` is searched for verbatim. */
  lemma {:induction false} UnreservedEncodesToItself(t: string)
    requires forall k | 0 <= k < |t| :: IsUnreserved(t[k])
    ensures EncodeUriComponent(t) == t
    decreases |t|
  {
    if |t| > 0 {
      UnreservedEncodesToItself(t[1..]);
      assert t == [t[0]] + t[1..];
    }
  }
}
