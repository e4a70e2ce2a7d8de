/** The webhook signature header and its hex codec (crates/infrastructure/src/payments_stripe_webhook.rs),
    with the token encoder of crates/infrastructure/src/tokens.rs. */
module WebhookSignatures {
  import opened Common

  type Byte = n: nat | n < 256

  const U64: nat := 0x1_0000_0000_0000_0000

  // -------- hex (section 8 of RFC 4648) --------

  function LowerDigit(n: nat): char
    requires n < 16
  {
    if n < 10 then '0' + n as char else 'a' + (n - 10) as char
  }

  function ToDigit(c: char): Option<nat> {
    if '0' <= c <= '9' then Some((c - '0') as nat)
    else if 'a' <= c <= 'f' then Some((c - 'a') as nat + 10)
    else if 'A' <= c <= 'F' then Some((c - 'A') as nat + 10)
    else None
  }

  predicate IsHex(c: char) {
    ToDigit(c).Some?
  }

  function Encode(bytes: seq<Byte>): string {
    if bytes == [] then []
    else
      var b := bytes[|bytes|-1];
      Encode(bytes[..|bytes|-1]) + [LowerDigit(b / 16), LowerDigit(b % 16)]
  }

  function Decode(s: string): Option<seq<Byte>> {
    if s == [] then Some([])
    else if |s| == 1 then None
    else
      var front, hi, lo := Decode(s[..|s|-2]), ToDigit(s[|s|-2]), ToDigit(s[|s|-1]);
      if front == None || hi == None || lo == None then None
      else DigitBound(s[|s|-2]); DigitBound(s[|s|-1]); Some(front.value + [hi.value * 16 + lo.value])
  }

  lemma DigitBound(c: char)
    ensures ToDigit(c).Some? ==> ToDigit(c).value < 16
  {
  }

  /** The encoder's loop. */
  method EncodeHex(buf: seq<Byte>) returns (out: string)
    ensures out == Encode(buf)
  {
    out := [];
    for i := 0 to |buf|
      invariant out == Encode(buf[..i])
    {
      assert buf[..i+1][..i] == buf[..i];
      out := out + [LowerDigit(buf[i] / 16), LowerDigit(buf[i] % 16)];
    }
    assert buf[..|buf|] == buf;
  }

  /** The decoder's loop over pairs, with its early exits. */
  method DecodeHex(s: string) returns (out: Option<seq<Byte>>)
    ensures out == Decode(s)
  {
    if |s| % 2 != 0 {
      DecodesIff(s);
      return None;
    }
    var bytes: seq<Byte> := [];
    var i := 0;
    while i < |s|
      invariant 0 <= i <= |s| && i % 2 == 0
      invariant Decode(s[..i]) == Some(bytes)
    {
      var hi, lo := ToDigit(s[i]), ToDigit(s[i+1]);
      if hi == None || lo == None {
        BadPair(s, i);
        return None;
      }
      DecodePair(s, i);
      bytes := bytes + [hi.value * 16 + lo.value];
      i := i + 2;
    }
    assert s[..i] == s;
    return Some(bytes);
  }

  lemma BadPair(s: string, i: nat)
    requires i + 2 <= |s| && !(IsHex(s[i]) && IsHex(s[i+1]))
    ensures Decode(s) == None
  {
    DecodesIff(s);
  }

  lemma DecodePair(s: string, i: nat)
    requires i + 2 <= |s| && Decode(s[..i]).Some? && IsHex(s[i]) && IsHex(s[i+1])
    ensures ToDigit(s[i]).value < 16 && ToDigit(s[i+1]).value < 16
    ensures Decode(s[..i+2]) == Some(Decode(s[..i]).value + [ToDigit(s[i]).value * 16 + ToDigit(s[i+1]).value])
  {
    DecodeAppend(s[..i], s[i], s[i+1]);
    assert s[..i+2] == s[..i] + [s[i], s[i+1]];
  }

  /** A string decodes exactly when it is pairs of hex digits. */
  lemma {:induction false} DecodesIff(s: string)
    ensures Decode(s).Some? <==> |s| % 2 == 0 && forall i :: 0 <= i < |s| ==> IsHex(s[i])
    decreases |s|
  {
    if |s| >= 2 {
      DecodesIff(s[..|s|-2]);
    }
  }

  /** The digits, and both cases of the letters. */
  lemma DigitMeaning(n: nat)
    requires n < 16
    ensures LowerDigit(n) == "0123456789abcdef"[n]
    ensures ToDigit("0123456789abcdef"[n]) == ToDigit("0123456789ABCDEF"[n]) == Some(n)
  {
  }

  lemma DigitsRoundTrip(n: nat)
    requires n < 16
    ensures ToDigit(LowerDigit(n)) == Some(n)
  {
  }

  /** Decoding inverts encoding, for every byte string. */
  lemma {:induction false} DecodeInvertsEncode(bytes: seq<Byte>)
    ensures Decode(Encode(bytes)) == Some(bytes)
  {
    if bytes != [] {
      var front, b := bytes[..|bytes|-1], bytes[|bytes|-1];
      DecodeInvertsEncode(front);
      OneByteInverts(Encode(front), front, b);
      assert bytes == front + [b];
    }
  }

  lemma OneByteInverts(s: string, front: seq<Byte>, b: Byte)
    requires Decode(s) == Some(front)
    ensures Decode(s + [LowerDigit(b / 16), LowerDigit(b % 16)]) == Some(front + [b])
  {
    DigitsRoundTrip(b / 16);
    DigitsRoundTrip(b % 16);
    DecodeAppend(s, LowerDigit(b / 16), LowerDigit(b % 16));
    assert b / 16 * 16 + b % 16 == b;
  }

  lemma DecodeAppend(s: string, hi: char, lo: char)
    requires Decode(s).Some? && IsHex(hi) && IsHex(lo)
    ensures ToDigit(hi).value < 16 && ToDigit(lo).value < 16
    ensures Decode(s + [hi, lo]) == Some(Decode(s).value + [ToDigit(hi).value * 16 + ToDigit(lo).value])
  {
    assert (s + [hi, lo])[..|s|] == s;
  }

  function LowerChar(c: char): char {
    if 'A' <= c <= 'F' then 'a' + (c - 'A') else c
  }

  function Lower(s: string): string {
    seq(|s|, i requires 0 <= i < |s| => LowerChar(s[i]))
  }

  lemma LowersDigit(c: char)
    requires IsHex(c)
    ensures ToDigit(c).value < 16 && LowerDigit(ToDigit(c).value) == LowerChar(c)
  {
  }

  lemma LowerAppend(s: string, hi: char, lo: char)
    ensures Lower(s + [hi, lo]) == Lower(s) + [LowerChar(hi), LowerChar(lo)]
  {
  }

  /** Re-encoding a decoded string gives its lower-case form. */
  lemma {:induction false} EncodeInvertsDecode(s: string)
    requires Decode(s).Some?
    ensures Encode(Decode(s).value) == Lower(s)
    decreases |s|
  {
    if s != [] {
      var front, hi, lo := s[..|s|-2], s[|s|-2], s[|s|-1];
      assert s == front + [hi, lo];
      EncodeInvertsDecode(front);
      OnePairInverts(front, hi, lo);
    }
  }

  lemma OnePairInverts(front: string, hi: char, lo: char)
    requires Decode(front).Some? && IsHex(hi) && IsHex(lo)
    requires Encode(Decode(front).value) == Lower(front)
    ensures Decode(front + [hi, lo]).Some? && Encode(Decode(front + [hi, lo]).value) == Lower(front + [hi, lo])
  {
    DecodeAppend(front, hi, lo);
    EncodePair(Decode(front).value, hi, lo);
    LowerAppend(front, hi, lo);
  }

  lemma EncodePair(bytes: seq<Byte>, hi: char, lo: char)
    requires IsHex(hi) && IsHex(lo)
    ensures ToDigit(hi).value < 16 && ToDigit(lo).value < 16
    ensures Encode(bytes + [ToDigit(hi).value * 16 + ToDigit(lo).value]) == Encode(bytes) +
            [LowerChar(hi), LowerChar(lo)]
  {
    LowersDigit(hi);
    LowersDigit(lo);
    EncodeAppend(bytes, ToDigit(hi).value, ToDigit(lo).value);
  }

  lemma Nibbles(hi: nat, lo: nat)
    requires hi < 16 && lo < 16
    ensures (hi * 16 + lo) / 16 == hi && (hi * 16 + lo) % 16 == lo
  {
  }

  lemma EncodeAppend(bytes: seq<Byte>, hi: nat, lo: nat)
    requires hi < 16 && lo < 16
    ensures Encode(bytes + [hi * 16 + lo]) == Encode(bytes) + [LowerDigit(hi), LowerDigit(lo)]
  {
    Nibbles(hi, lo);
    assert (bytes + [hi * 16 + lo])[..|bytes|] == bytes;
  }

  // -------- decimal numbers --------

  predicate IsDigit(c: char) {
    '0' <= c <= '9'
  }

  function Decimal(n: nat): string {
    if n < 10 then [LowerDigit(n)] else Decimal(n / 10) + [LowerDigit(n % 10)]
  }

  function Digits(s: string): nat {
    if s == [] then 0
    else Digits(s[..|s|-1]) * 10 + if IsDigit(s[|s|-1]) then (s[|s|-1] - '0') as nat else 0
  }

  predicate AllDigits(s: string) {
    s != [] && forall i :: 0 <= i < |s| ==> IsDigit(s[i])
  }

  /** What is left of a number without its plus sign. */
  function Unsigned(s: string): string {
    if s != [] && s[0] == '+' then s[1..] else s
  }

  /** `str::parse::<u64>`: an optional plus sign, then at least one digit, no overflow. */
  function ParseU64(s: string): Option<nat> {
    if !AllDigits(Unsigned(s)) then None
    else if Digits(Unsigned(s)) >= U64 then None
    else Some(Digits(Unsigned(s)))
  }

  lemma {:induction false} DecimalDigits(n: nat)
    ensures Decimal(n) != []
    ensures forall i :: 0 <= i < |Decimal(n)| ==> IsDigit(Decimal(n)[i])
    ensures Digits(Decimal(n)) == n
  {
    if n >= 10 {
      DecimalDigits(n / 10);
      assert Decimal(n)[..|Decimal(n)|-1] == Decimal(n / 10);
    }
  }

  /** The shortest such string: no leading zero. */
  lemma {:induction false} DecimalIsShortest(n: nat)
    ensures n < 10 ==> |Decimal(n)| == 1
    ensures n > 0 ==> Decimal(n) != [] && Decimal(n)[0] != '0'
  {
    if n >= 10 {
      DecimalIsShortest(n / 10);
    }
  }

  lemma DecimalRoundTrip(n: nat)
    requires n < U64
    ensures ParseU64(Decimal(n)) == Some(n)
  {
    DecimalDigits(n);
    assert IsDigit(Decimal(n)[0]);
  }

  /** Exactly the strings that parse: digits, after at most one plus sign, of a value below 2^64. */
  lemma ParseU64Iff(s: string)
    ensures ParseU64(s).Some? <==> AllDigits(Unsigned(s)) && Digits(Unsigned(s)) < 0x1_0000_0000_0000_0000
    ensures ParseU64(s).Some? ==> ParseU64(s).value == Digits(Unsigned(s))
    ensures Unsigned("+" + s) == s && (s == [] || s[0] != '+' ==> Unsigned(s) == s)
  {
  }

  // -------- the header --------

  /** The characters `str::trim` removes: Unicode's White_Space. */
  predicate IsSpace(c: char) {
    var n := c as int;
    || 9 <= n <= 13 || n == 32 || n == 0x85 || n == 0xA0 || n == 0x1680 || 0x2000 <= n <= 0x200A
    || n == 0x2028 || n == 0x2029 || n == 0x202F || n == 0x205F || n == 0x3000
  }

  function TrimStart(s: string): string {
    if s != [] && IsSpace(s[0]) then TrimStart(s[1..]) else s
  }

  function TrimEnd(s: string): string {
    if s != [] && IsSpace(s[|s|-1]) then TrimEnd(s[..|s|-1]) else s
  }

  function Trim(s: string): string {
    TrimEnd(TrimStart(s))
  }

  /** The first place of `c`, or the length. */
  function IndexOf(s: string, c: char): (i: nat)
    ensures i <= |s|
    ensures i < |s| ==> s[i] == c
    ensures forall j :: 0 <= j < i ==> s[j] != c
    ensures i == |s| <==> c !in s
  {
    if s == [] then 0 else if s[0] == c then 0 else IndexOf(s[1..], c) + 1
  }

  function Split(s: string, c: char): seq<string>
    decreases |s|
  {
    var i := IndexOf(s, c);
    if i == |s| then [s] else [s[..i]] + Split(s[i+1..], c)
  }

  /** `split_once('=')`, both sides trimmed as the parser uses them. */
  function Pair(part: string): Option<(string, string)> {
    var i := IndexOf(part, '=');
    if i == |part| then None else Some((Trim(part[..i]), Trim(part[i+1..])))
  }

  /** The parser's two variables, or None once a part has no '='. */
  type Scan = Option<(Option<nat>, Option<string>)>

  lemma {:induction false} TrimStartMeaning(s: string) returns (k: nat)
    ensures k <= |s| && TrimStart(s) == s[k..]
    ensures forall i :: 0 <= i < k ==> IsSpace(s[i])
    ensures k < |s| ==> !IsSpace(s[k])
  {
    k := 0;
    if s != [] && IsSpace(s[0]) {
      var rest := s[1..];
      k := TrimStartMeaning(rest);
      assert rest[k..] == s[k+1..];
      forall i | 0 <= i < k + 1 ensures IsSpace(s[i]) {
        assert i > 0 ==> s[i] == rest[i-1];
      }
      k := k + 1;
    }
  }

  lemma {:induction false} TrimEndMeaning(s: string)
    ensures TrimEnd(s) <= s
    ensures forall i :: |TrimEnd(s)| <= i < |s| ==> IsSpace(s[i])
    ensures TrimEnd(s) != [] ==> !IsSpace(TrimEnd(s)[|TrimEnd(s)|-1])
  {
    if s != [] && IsSpace(s[|s|-1]) {
      TrimEndMeaning(s[..|s|-1]);
    }
  }

  /** Trimming drops spaces at both ends, all of them, and nothing else. */
  lemma TrimMeaning(s: string) returns (first: nat, end: nat)
    ensures first <= end <= |s| && Trim(s) == s[first..end]
    ensures forall i :: 0 <= i < first || end <= i < |s| ==> IsSpace(s[i])
    ensures first < end ==> !IsSpace(s[first]) && !IsSpace(s[end-1])
  {
    var rest := TrimStart(s);
    first := TrimStartMeaning(s);
    TrimEndMeaning(rest);
    end := first + |TrimEnd(rest)|;
    assert TrimEnd(rest) == rest[..end - first] == s[first..end];
    forall i | end <= i < |s| ensures IsSpace(s[i]) {
      assert s[i] == rest[i - first];
    }
  }

  function Join(parts: seq<string>, c: char): string {
    if parts == [] then [] else if |parts| == 1 then parts[0] else parts[0] + [c] + Join(parts[1..], c)
  }

  /** The parts of a header are free of commas, and joined by commas give it back. */
  lemma SplitJoins(s: string, c: char)
    ensures Split(s, c) != [] && Join(Split(s, c), c) == s
    ensures forall part <- Split(s, c) :: c !in part
  {
    JoinOfSplit(s, c);
    PartsAreFree(s, c);
  }

  lemma JoinCons(part: string, rest: seq<string>, c: char)
    requires rest != []
    ensures Join([part] + rest, c) == part + [c] + Join(rest, c)
  {
    assert ([part] + rest)[1..] == rest;
  }

  lemma CutAt(s: string, i: nat)
    requires i < |s|
    ensures s == s[..i] + [s[i]] + s[i+1..]
  {
  }

  lemma {:induction false} JoinOfSplit(s: string, c: char)
    ensures Split(s, c) != [] && Join(Split(s, c), c) == s
    decreases |s|
  {
    var i := IndexOf(s, c);
    if i < |s| {
      var tail := s[i+1..];
      JoinOfSplit(tail, c);
      JoinCons(s[..i], Split(tail, c), c);
      CutAt(s, i);
    }
  }

  lemma {:induction false} PartsAreFree(s: string, c: char)
    ensures forall part <- Split(s, c) :: c !in part
    decreases |s|
  {
    var i := IndexOf(s, c);
    if i < |s| {
      PartsAreFree(s[i+1..], c);
    }
  }

  /** A part splits at its first '=', if it has one; what follows may hold more of them. */
  lemma PairMeaning(part: string, key: string, value: string)
    ensures Pair(part) == None <==> '=' !in part
    ensures '=' !in key ==> Pair(key + "=" + value) == Some((Trim(key), Trim(value)))
  {
    if '=' !in key {
      var s := key + "=" + value;
      assert s[|key|] == '=' && forall j :: 0 <= j < |key| ==> s[j] == key[j];
      assert IndexOf(s, '=') == |key|;
      assert s[..|key|] == key && s[|key|+1..] == value;
    }
  }

  function ScanPart(scan: Scan, part: string): Scan {
    if scan == None || Pair(part) == None then None
    else
      var (key, value) := Pair(part).value;
      var (t, v1) := scan.value;
      if key == "t" then Some((ParseU64(value), v1))
      else if key == "v1" && v1 == None then Some((t, Some(value)))
      else scan
  }

  function ScanParts(parts: seq<string>): Scan {
    if parts == [] then Some((None, None)) else ScanPart(ScanParts(parts[..|parts|-1]), parts[|parts|-1])
  }

  function ParseHeader(header: string): Option<(nat, string)> {
    var scan := ScanParts(Split(header, ','));
    if scan == None || scan.value.0 == None || scan.value.1 == None then None
    else Some((scan.value.0.value, scan.value.1.value))
  }

  method ParseSignatureHeader(header: string) returns (parsed: Option<(nat, string)>)
    ensures parsed == ParseHeader(header)
  {
    var parts := Split(header, ',');
    var timestamp: Option<nat>, v1: Option<string> := None, None;
    for i := 0 to |parts|
      invariant ScanParts(parts[..i]) == Some((timestamp, v1))
    {
      assert parts[..i+1][..i] == parts[..i];
      var pair := Pair(parts[i]);
      if pair == None {
        ScanStops(parts, i + 1);
        return None;
      }
      var (key, value) := pair.value;
      if key == "t" {
        timestamp := ParseU64(value);
      } else if key == "v1" && v1 == None {
        v1 := Some(value);
      }
    }
    assert parts[..|parts|] == parts;
    if timestamp == None || v1 == None {
      return None;
    }
    return Some((timestamp.value, v1.value));
  }

  lemma {:induction false} ScanStops(parts: seq<string>, i: nat)
    requires i <= |parts| && ScanParts(parts[..i]) == None
    ensures ScanParts(parts) == None
    decreases |parts|
  {
    if i < |parts| {
      assert parts[..|parts|-1][..i] == parts[..i];
      ScanStops(parts[..|parts|-1], i);
    } else {
      assert parts[..i] == parts;
    }
  }

  predicate HasKey(part: string, key: string) {
    Pair(part).Some? && Pair(part).value.0 == key
  }

  /** The value of the last part with this key. */
  function LastValue(parts: seq<string>, key: string): Option<string> {
    if parts == [] then None
    else if HasKey(parts[|parts|-1], key) then Some(Pair(parts[|parts|-1]).value.1)
    else LastValue(parts[..|parts|-1], key)
  }

  /** The value of the first part with this key. */
  function FirstValue(parts: seq<string>, key: string): Option<string> {
    if parts == [] then None
    else if HasKey(parts[0], key) then Some(Pair(parts[0]).value.1)
    else FirstValue(parts[1..], key)
  }

  lemma {:induction false} FirstValueAppend(parts: seq<string>, part: string, key: string)
    ensures FirstValue(parts + [part], key) ==
            if FirstValue(parts, key).Some? then FirstValue(parts, key)
            else if HasKey(part, key) then Some(Pair(part).value.1) else None
  {
    if parts != [] {
      assert (parts + [part])[1..] == parts[1..] + [part];
      FirstValueAppend(parts[1..], part, key);
    } else {
      assert parts + [part] == [part];
    }
  }

  predicate AllPairs(parts: seq<string>) {
    forall part <- parts :: Pair(part).Some?
  }

  /** What the scan remembers of a list of parts that all have an '='. */
  lemma {:induction false} ScanMeaning(parts: seq<string>)
    ensures ScanParts(parts).Some? <==> AllPairs(parts)
    ensures ScanParts(parts).Some? ==>
              && ScanParts(parts).value.0 ==
                   (var t := LastValue(parts, "t"); if t == None then None else ParseU64(t.value))
              && ScanParts(parts).value.1 == FirstValue(parts, "v1")
  {
    if parts != [] {
      var front, part := parts[..|parts|-1], parts[|parts|-1];
      ScanMeaning(front);
      FirstValueAppend(front, part, "v1");
      PairsAppend(front, part);
      assert parts == front + [part];
    }
  }

  lemma PairsAppend(parts: seq<string>, part: string)
    ensures AllPairs(parts + [part]) <==> AllPairs(parts) && Pair(part).Some?
  {
    assert forall x :: x in parts + [part] <==> x in parts || x == part;
  }

  /** What a header parses to: every part needs an '=', the last `t` must be a number and decides the
      timestamp, and the first `v1` decides the signature. */
  lemma ParseHeaderIff(header: string, t: nat, v1: string)
    ensures ParseHeader(header) == Some((t, v1)) <==>
            var parts := Split(header, ',');
            && AllPairs(parts)
            && LastValue(parts, "t").Some? && ParseU64(LastValue(parts, "t").value) == Some(t)
            && FirstValue(parts, "v1") == Some(v1)
  {
    ScanMeaning(Split(header, ','));
  }

  // -------- print, then parse --------

  function PrintHeader(t: nat, signature: seq<Byte>): string {
    "t=" + Decimal(t) + ",v1=" + Encode(signature)
  }

  predicate Plain(s: string) {
    forall c <- s :: IsHex(c)
  }

  lemma PlainTrims(s: string)
    requires Plain(s)
    ensures Trim(s) == s && ',' !in s && '=' !in s
  {
    if s != [] {
      assert s[0] in s && s[|s|-1] in s;
    }
  }

  lemma {:induction false} EncodeIsPlain(bytes: seq<Byte>)
    ensures Plain(Encode(bytes))
  {
    if bytes != [] {
      var front, b := bytes[..|bytes|-1], bytes[|bytes|-1];
      EncodeIsPlain(front);
      DigitsRoundTrip(b / 16);
      DigitsRoundTrip(b % 16);
    }
  }

  lemma SplitTwo(a: string, b: string)
    requires ',' !in a && ',' !in b
    ensures Split(a + "," + b, ',') == [a, b]
  {
    var s := a + "," + b;
    assert s[|a|] == ',' && forall j :: 0 <= j < |a| ==> s[j] == a[j];
    assert IndexOf(s, ',') == |a|;
    assert s[..|a|] == a && s[|a|+1..] == b;
  }

  lemma PairOf(key: string, value: string)
    requires '=' !in key && Trim(key) == key && Plain(value)
    ensures Pair(key + "=" + value) == Some((key, value))
  {
    var s := key + "=" + value;
    PlainTrims(value);
    assert s[|key|] == '=' && forall j :: 0 <= j < |key| ==> s[j] == key[j];
    assert IndexOf(s, '=') == |key|;
    assert s[..|key|] == key && s[|key|+1..] == value;
  }

  /** Parsing a printed header returns the timestamp and the signature it was printed from. */
  lemma HeaderRoundTrip(t: nat, signature: seq<Byte>)
    requires t < U64
    ensures ParseHeader(PrintHeader(t, signature)) == Some((t, Encode(signature)))
    ensures Decode(ParseHeader(PrintHeader(t, signature)).value.1) == Some(signature)
  {
    DecodeInvertsEncode(signature);
    PrintedParts(t, signature);
    var first, second := "t=" + Decimal(t), "v1=" + Encode(signature);
    DecimalRoundTrip(t);
    ScanTwo(first, second, Decimal(t), Encode(signature));
  }

  lemma ScanTwo(first: string, second: string, n: string, hex: string)
    requires Pair(first) == Some(("t", n)) && Pair(second) == Some(("v1", hex))
    ensures ScanParts([first, second]) == Some((ParseU64(n), Some(hex)))
  {
    assert [first, second][..1] == [first] && [first][..0] == [];
    assert ScanParts([first]) == ScanPart(Some((None, None)), first);
  }

  lemma DecimalIsPlain(n: nat)
    ensures Plain(Decimal(n))
  {
    DecimalDigits(n);
    forall c <- Decimal(n) ensures IsHex(c) {
      assert IsDigit(c);
    }
  }

  lemma PrintedParts(t: nat, signature: seq<Byte>)
    ensures var first, second := "t=" + Decimal(t), "v1=" + Encode(signature);
            && Split(PrintHeader(t, signature), ',') == [first, second]
            && Pair(first) == Some(("t", Decimal(t)))
            && Pair(second) == Some(("v1", Encode(signature)))
  {
    var n, hex := Decimal(t), Encode(signature);
    DecimalIsPlain(t);
    EncodeIsPlain(signature);
    PlainTrims(n);
    PlainTrims(hex);
    PairOf("t", n);
    PairOf("v1", hex);
    var first, second := "t=" + n, "v1=" + hex;
    assert "t" + "=" == "t=" && "v1" + "=" == "v1=";
    assert PrintHeader(t, signature) == first + "," + second;
    SplitTwo(first, second);
  }

  // -------- verification, the MAC abstract --------

  type Mac = (string, seq<Byte>) -> seq<Byte>

  function Ascii(s: string): seq<Byte> {
    seq(|s|, i requires 0 <= i < |s| => (s[i] as int) % 256)
  }

  function SignedBytes(t: nat, payload: seq<Byte>): seq<Byte> {
    Ascii(Decimal(t)) + [46] + payload
  }

  function Distance(a: nat, b: nat): nat {
    if a < b then b - a else a - b
  }

  /** Whether the verifier accepts a payload's signature; `now` in epoch seconds. */
  predicate Verifies(mac: Mac, secret: string, tolerance: nat, now: nat, header: Option<string>, payload: seq<Byte>) {
    && header.Some?
    && var parsed := ParseHeader(header.value);
       && parsed.Some?
       && Distance(now, parsed.value.0) <= tolerance
       && Decode(parsed.value.1) == Some(mac(secret, SignedBytes(parsed.value.0, payload)))
  }

  /** The bytes under the MAC: the decimal timestamp, a dot, and the payload as received. */
  lemma SignedBytesAt(t: nat, payload: seq<Byte>, i: nat)
    requires i < |SignedBytes(t, payload)|
    ensures |SignedBytes(t, payload)| == |Decimal(t)| + 1 + |payload|
    ensures SignedBytes(t, payload)[i] ==
            if i < |Decimal(t)| then Decimal(t)[i] as int
            else if i == |Decimal(t)| then '.' as int else payload[i - |Decimal(t)| - 1]
  {
    DecimalDigits(t);
    if i < |Decimal(t)| {
      assert IsDigit(Decimal(t)[i]);
    }
  }

  /** They determine both: no two pairs of timestamp and payload share them. */
  lemma SignedBytesIdentify(t: nat, payload: seq<Byte>, u: nat, other: seq<Byte>)
    requires SignedBytes(t, payload) == SignedBytes(u, other)
    ensures t == u && payload == other
  {
    DotEndsTimestamp(t, payload, u, other);
    DotEndsTimestamp(u, other, t, payload);
    var n, m := Decimal(t), Decimal(u);
    forall i | 0 <= i < |n| ensures n[i] == m[i] {
      SameDigit(t, payload, u, other, i);
    }
    assert n == m;
    DecimalDigits(t);
    DecimalDigits(u);
    assert payload == SignedBytes(t, payload)[|n|+1..] == SignedBytes(u, other)[|m|+1..] == other;
  }

  lemma DotEndsTimestamp(t: nat, payload: seq<Byte>, u: nat, other: seq<Byte>)
    requires SignedBytes(t, payload) == SignedBytes(u, other)
    ensures |Decimal(u)| <= |Decimal(t)|
  {
    var k := |Decimal(t)|;
    SignedBytesAt(t, payload, k);
    SignedBytesAt(u, other, k);
    DecimalDigits(u);
    assert k < |Decimal(u)| ==> IsDigit(Decimal(u)[k]);
  }

  lemma SameDigit(t: nat, payload: seq<Byte>, u: nat, other: seq<Byte>, i: nat)
    requires SignedBytes(t, payload) == SignedBytes(u, other)
    requires i < |Decimal(t)| == |Decimal(u)|
    ensures Decimal(t)[i] == Decimal(u)[i]
  {
    DecimalDigits(t);
    DecimalDigits(u);
    assert IsDigit(Decimal(t)[i]) && IsDigit(Decimal(u)[i]);
    SignedBytesAt(t, payload, i);
    SignedBytesAt(u, other, i);
  }

  /** What it takes to verify: a header that parses, a clock within the tolerance on either side, and a
      signature that is the hex, of either case, of the MAC of timestamp and payload. */
  lemma VerifiesIff(mac: Mac, secret: string, tolerance: nat, now: nat, header: string, payload: seq<Byte>)
    ensures !Verifies(mac, secret, tolerance, now, None, payload)
    ensures Verifies(mac, secret, tolerance, now, Some(header), payload) <==>
            && ParseHeader(header).Some?
            && var (t, v1) := ParseHeader(header).value;
               && now <= t + tolerance && t <= now + tolerance
               && Decode(v1).Some? && Lower(v1) == Encode(mac(secret, SignedBytes(t, payload)))
  {
    if ParseHeader(header).Some? {
      var (t, v1) := ParseHeader(header).value;
      if Decode(v1).Some? {
        EncodeInvertsDecode(v1);
        DecodeInvertsEncode(Decode(v1).value);
        DecodeInvertsEncode(mac(secret, SignedBytes(t, payload)));
      }
    }
  }

  /** A payload signed with the shared secret verifies exactly while its timestamp is within the
      tolerance, and another payload under the same header only if their MACs agree. */
  lemma SignedPayloadVerifies(mac: Mac, secret: string, tolerance: nat, now: nat, t: nat, payload: seq<Byte>,
      other: seq<Byte>)
    requires t < U64
    ensures var header := PrintHeader(t, mac(secret, SignedBytes(t, payload)));
            && (Verifies(mac, secret, tolerance, now, Some(header), payload) <==>
                  now <= t + tolerance && t <= now + tolerance)
            && (Verifies(mac, secret, tolerance, now, Some(header), other) ==>
                  mac(secret, SignedBytes(t, other)) == mac(secret, SignedBytes(t, payload)))
  {
    HeaderRoundTrip(t, mac(secret, SignedBytes(t, payload)));
  }
}
