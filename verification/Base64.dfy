/**
  Base64::Encode and Base64::Decode of src/Base64.cc against section 4 of RFC 4648.
  The input length is a mathematical number: strings longer than INT_MAX, whose size the
  program stores in an int, are outside the model.
*/
module Base64 {
  import opened Common

  type byte = bv8

  // ----- the alphabet -----

  const UPPER: string := "ABCDEFGHIJKLMNOPQRSTUVWXYZ"
  const LOWER: string := "abcdefghijklmnopqrstuvwxyz"
  const OTHERS: string := "0123456789+/"
  const ALPHABET: string := UPPER + LOWER + OTHERS

  /** isalnum in the C locale, plus the two other characters. */
  predicate IsBase64(c: char) {
    'a' <= c <= 'z' || 'A' <= c <= 'Z' || '0' <= c <= '9' || c == '+' || c == '/'
  }

  /** table[v]: the entry v places behind entry k. */
  function SymbolFrom(table: string, v: byte, k: nat): char
    decreases |table| - k
  {
    if k >= |table| then '\0' else if v == 0 then table[k] else SymbolFrom(table, v - 1, k + 1)
  }

  /** base64Chars[v]. */
  function Symbol(v: byte): char {
    SymbolFrom(ALPHABET, v, 0)
  }

  /** v more than the distance that std::find covers from entry k on to find c or the end. */
  function IndexFrom(table: string, c: char, k: nat, v: byte): byte
    decreases |table| - k
  {
    if k >= |table| || table[k] == c then v else IndexFrom(table, c, k + 1, v + 1)
  }

  /** std::find in the alphabet minus base64Chars; 64 if c is not there. */
  function IndexOf(c: char): byte {
    IndexFrom(ALPHABET, c, 0, 0)
  }

  /** Position of a character, by its place in the ASCII table. */
  function Place(c: char): nat {
    if 'A' <= c <= 'Z' then c as nat - 'A' as nat
    else if 'a' <= c <= 'z' then c as nat - 'a' as nat + 26
    else if '0' <= c <= '9' then c as nat - '0' as nat + 52
    else if c == '+' then 62 else 63
  }

  lemma UpperPlaces(i: nat)
    requires i < 26
    ensures UPPER[i] as nat == 'A' as nat + i && LOWER[i] as nat == 'a' as nat + i
  {
  }

  lemma OtherPlaces(i: nat)
    requires i < 12
    ensures OTHERS[i] == if i < 10 then ('0' as nat + i) as char else if i == 10 then '+' else '/'
  {
  }

  lemma AlphabetPlaces(i: nat)
    requires i < 64
    ensures IsBase64(ALPHABET[i]) && Place(ALPHABET[i]) == i
  {
    if i < 26 {
      UpperPlaces(i);
    } else if i < 52 {
      UpperPlaces(i - 26);
    } else {
      OtherPlaces(i - 52);
    }
  }

  lemma SamePlace(c: char, d: char)
    requires IsBase64(c) && IsBase64(d) && Place(c) == Place(d)
    ensures c == d
  {
  }

  lemma PlaceIsSmall(c: char)
    requires IsBase64(c)
    ensures Place(c) < 64
  {
  }

  lemma AlphabetComplete(c: char)
    requires IsBase64(c)
    ensures Place(c) < 64 && ALPHABET[Place(c)] == c
  {
    PlaceIsSmall(c);
    AlphabetPlaces(Place(c));
    SamePlace(ALPHABET[Place(c)], c);
  }

  /** The number p as a byte. */
  function Nth(p: nat): byte {
    if p == 0 then 0 else Nth(p - 1) + 1
  }

  /** Eight times k. */
  function Octet(k: nat): byte {
    match k
    case 0 => 0
    case 1 => 8
    case 2 => 16
    case 3 => 24
    case 4 => 32
    case 5 => 40
    case 6 => 48
    case 7 => 56
    case _ => 64
  }

  lemma NextSum(x: byte, y: byte)
    ensures x + (y + 1) == x + y + 1
  {
  }

  lemma {:induction false} NthSum(a: nat, b: nat)
    ensures Nth(a + b) == Nth(a) + Nth(b)
  {
    if b > 0 {
      NthSum(a, b - 1);
      NextSum(Nth(a), Nth(b - 1));
    } else {
      ZeroSum(Nth(a));
    }
  }

  lemma ZeroSum(x: byte)
    ensures x + 0 == x
  {
  }

  lemma NthOfFew()
    ensures Nth(0) == 0 && Nth(1) == 1 && Nth(2) == 2 && Nth(3) == 3
    ensures Nth(4) == 4 && Nth(5) == 5 && Nth(6) == 6 && Nth(7) == 7 && Nth(8) == 8
  {
  }

  lemma NextOctet(k: nat)
    requires k < 8
    ensures Octet(k) + 8 == Octet(k + 1)
  {
  }

  lemma {:induction false} NthOfOctet(k: nat)
    requires k <= 8
    ensures Nth(8 * k) == Octet(k)
  {
    NthOfFew();
    if k > 0 {
      NthOfOctet(k - 1);
      NthSum(8 * (k - 1), 8);
      NextOctet(k - 1);
    }
  }

  lemma OctetAndFew(k: nat, x: byte)
    requires k < 8 && x < 8
    ensures Octet(k) + x < 64 && (k > 0 || x != 0 ==> Octet(k) + x != 0)
  {
  }

  lemma NthFacts(p: nat)
    requires p < 64
    ensures Nth(p) < 64 && (p > 0 ==> Nth(p) != 0)
  {
    var k, b := p / 8, p % 8;
    NthOfFew();
    NthOfOctet(k);
    NthSum(8 * k, b);
    OctetAndFew(k, Nth(b));
  }

  lemma PreviousByte(v: byte)
    requires v != 0
    ensures v - 1 < v && v - 1 + 1 == v && (v <= 64 ==> v - 1 < 64)
  {
  }

  lemma {:induction false} NthReaches(v: byte) returns (p: nat)
    requires v < 64
    ensures p < 64 && Nth(p) == v
    decreases v
  {
    if v == 0 {
      p := 0;
    } else {
      PreviousByte(v);
      var q := NthReaches(v - 1);
      p := q + 1;
      NthOfOctet(8);
    }
  }

  lemma BeforeNext(x: byte, y: byte)
    requires x == y + 1
    ensures x - 1 == y
  {
  }

  lemma {:induction false} SymbolFromNth(table: string, p: nat, k: nat)
    requires |table| == 64 && k + p < 64
    ensures SymbolFrom(table, Nth(p), k) == table[k + p]
    decreases p
  {
    if p > 0 {
      NthFacts(p);
      BeforeNext(Nth(p), Nth(p - 1));
      SymbolFromNth(table, p - 1, k + 1);
    }
  }

  lemma {:induction false} IndexFromNth(table: string, p: nat, k: nat)
    requires |table| == 64 && k <= p < 64
    requires forall i :: 0 <= i < p ==> table[i] != table[p]
    ensures IndexFrom(table, table[p], k, Nth(k)) == Nth(p)
    decreases p - k
  {
    if k < p {
      IndexFromNth(table, p, k + 1);
    }
  }

  lemma AlphabetRoundTrip(p: nat)
    requires p < 64
    ensures Symbol(Nth(p)) == ALPHABET[p] && IndexOf(ALPHABET[p]) == Nth(p)
  {
    SymbolFromNth(ALPHABET, p, 0);
    forall i | 0 <= i < p
      ensures ALPHABET[i] != ALPHABET[p]
    {
      AlphabetPlaces(i);
      AlphabetPlaces(p);
    }
    IndexFromNth(ALPHABET, p, 0);
  }

  /** Looking up a symbol gives the sextet back, and the other way round. */
  lemma LookupRoundTrip(v: byte)
    requires v < 64
    ensures IsBase64(Symbol(v)) && IndexOf(Symbol(v)) == v
  {
    var p := NthReaches(v);
    AlphabetRoundTrip(p);
    AlphabetPlaces(p);
  }

  lemma SymbolRoundTrip(c: char)
    requires IsBase64(c)
    ensures IndexOf(c) < 64 && Symbol(IndexOf(c)) == c
  {
    AlphabetComplete(c);
    AlphabetRoundTrip(Place(c));
    NthFacts(Place(c));
  }

  // ----- the standard: bits regrouped by six -----

  /** Bit j of a byte; bit 0 is the most significant. */
  function BitOf(x: byte, j: nat): bool {
    match j
    case 0 => x & 0x80 != 0
    case 1 => x & 0x40 != 0
    case 2 => x & 0x20 != 0
    case 3 => x & 0x10 != 0
    case 4 => x & 8 != 0
    case 5 => x & 4 != 0
    case 6 => x & 2 != 0
    case _ => x & 1 != 0
  }

  /** Bit n of a byte sequence, and zero bits behind its end. */
  function StreamBit(bytes: seq<byte>, n: nat): bool {
    n / 8 < |bytes| && BitOf(bytes[n / 8], n % 8)
  }

  function Weight(b: bool, weight: byte): byte {
    if b then weight else 0
  }

  /** The number whose binary digits are the six bits. */
  function Sextet(a: bool, b: bool, c: bool, d: bool, e: bool, f: bool): byte {
    Weight(a, 32) | Weight(b, 16) | Weight(c, 8) | Weight(d, 4) | Weight(e, 2) | Weight(f, 1)
  }

  /** The symbol of the k-th group of six bits. */
  function GroupSymbol(bytes: seq<byte>, k: nat): char {
    Symbol(Sextet(StreamBit(bytes, 6 * k), StreamBit(bytes, 6 * k + 1), StreamBit(bytes, 6 * k + 2),
                  StreamBit(bytes, 6 * k + 3), StreamBit(bytes, 6 * k + 4), StreamBit(bytes, 6 * k + 5)))
  }

  /** Character k of the output: a symbol where there is a bit of the input, else '='. */
  function StandardChars(bytes: seq<byte>): nat -> char {
    (k: nat) => if 6 * k < 8 * |bytes| then GroupSymbol(bytes, k) else '='
  }

  function Text(n: nat, f: nat -> char): string {
    seq(n, k requires 0 <= k < n => f(k))
  }

  /** RFC 4648, section 4: four characters for every three bytes or part of them. */
  function Standard(bytes: seq<byte>): string {
    Text(4 * ((|bytes| + 2) / 3), StandardChars(bytes))
  }

  // ----- the program's formulas -----

  function First(a: byte): byte {
    (a & 0xfc) >> 2
  }

  function Second(a: byte, b: byte): byte {
    ((a & 0x03) << 4) + ((b & 0xf0) >> 4)
  }

  function Third(b: byte, c: byte): byte {
    ((b & 0x0f) << 2) + ((c & 0xc0) >> 6)
  }

  function Fourth(c: byte): byte {
    c & 0x3f
  }

  function Byte0(p: byte, q: byte): byte {
    (p << 2) + ((q & 0x30) >> 4)
  }

  function Byte1(q: byte, r: byte): byte {
    ((q & 0xf) << 4) + ((r & 0x3c) >> 2)
  }

  function Byte2(r: byte, s: byte): byte {
    ((r & 0x3) << 6) + s
  }

  lemma SextetsAreSmall(a: byte, b: byte, c: byte)
    ensures First(a) < 64 && Second(a, b) < 64 && Third(b, c) < 64 && Fourth(c) < 64
  {
  }

  /** The four sextets of three bytes are the regrouped bits of the bytes. */
  lemma FirstIsBits(a: byte)
    ensures First(a) == Sextet(BitOf(a, 0), BitOf(a, 1), BitOf(a, 2), BitOf(a, 3), BitOf(a, 4), BitOf(a, 5))
  {
  }

  lemma SecondIsBits(a: byte, b: byte)
    ensures Second(a, b) == Sextet(BitOf(a, 6), BitOf(a, 7), BitOf(b, 0), BitOf(b, 1), BitOf(b, 2), BitOf(b, 3))
  {
  }

  lemma ThirdIsBits(b: byte, c: byte)
    ensures Third(b, c) == Sextet(BitOf(b, 4), BitOf(b, 5), BitOf(b, 6), BitOf(b, 7), BitOf(c, 0), BitOf(c, 1))
  {
  }

  lemma FourthIsBits(c: byte)
    ensures Fourth(c) == Sextet(BitOf(c, 2), BitOf(c, 3), BitOf(c, 4), BitOf(c, 5), BitOf(c, 6), BitOf(c, 7))
  {
  }

  /** Regrouping by six and by eight are inverse to each other. */
  lemma BytesOfSextets(a: byte, b: byte, c: byte)
    ensures Byte0(First(a), Second(a, b)) == a
    ensures Byte1(Second(a, b), Third(b, c)) == b
    ensures Byte2(Third(b, c), Fourth(c)) == c
  {
  }

  lemma SextetsOfBytes(p: byte, q: byte, r: byte, s: byte)
    requires p < 64 && q < 64 && r < 64 && s < 64
    ensures First(Byte0(p, q)) == p
    ensures Second(Byte0(p, q), Byte1(q, r)) == q
    ensures Third(Byte1(q, r), Byte2(r, s)) == r
    ensures Fourth(Byte2(r, s)) == s
  {
  }

  // ----- encoding -----

  /** The four symbols of three bytes. */
  function Quad(a: byte, b: byte, c: byte): (q: string)
    ensures |q| == 4
  {
    [Symbol(First(a)), Symbol(Second(a, b)), Symbol(Third(b, c)), Symbol(Fourth(c))]
  }

  function Equals(n: nat): string {
    seq(n, _ => '=')
  }

  /** What Encode appends to its result. */
  function Encoded(bytes: seq<byte>): string {
    if bytes == [] then ""
    else if |bytes| == 1 then Quad(bytes[0], 0, 0)[..2] + Equals(2)
    else if |bytes| == 2 then Quad(bytes[0], bytes[1], 0)[..3] + Equals(1)
    else Quad(bytes[0], bytes[1], bytes[2]) + Encoded(bytes[3..])
  }

  /** Fills charArray4 from charArray3 and appends the first count symbols to the result. */
  method EncodeGroup(charArray3: array<byte>, charArray4: array<byte>, count: nat, initial: string)
    returns (result: string)
    requires charArray3.Length == 3 && charArray4.Length == 4 && charArray3 != charArray4 && count <= 4
    modifies charArray4
    ensures result == initial + Quad(charArray3[0], charArray3[1], charArray3[2])[..count]
  {
    charArray4[0] := First(charArray3[0]);
    charArray4[1] := Second(charArray3[0], charArray3[1]);
    charArray4[2] := Third(charArray3[1], charArray3[2]);
    charArray4[3] := Fourth(charArray3[2]);
    ghost var quad := Quad(charArray3[0], charArray3[1], charArray3[2]);
    assert forall k :: 0 <= k < 4 ==> Symbol(charArray4[k]) == quad[k];
    result := initial;
    for j := 0 to count
      invariant forall k :: 0 <= k < 4 ==> Symbol(charArray4[k]) == quad[k]
      invariant result == initial + quad[..j]
      invariant charArray3[..] == old(charArray3[..])
    {
      result := result + [Symbol(charArray4[j])];
    }
  }

  /** The last one or two bytes. */
  method EncodeTail(charArray3: array<byte>, charArray4: array<byte>, count: nat, initial: string)
    returns (result: string)
    requires charArray3.Length == 3 && charArray4.Length == 4 && charArray3 != charArray4 && 1 <= count <= 2
    modifies charArray3, charArray4
    ensures result == initial + Encoded(old(charArray3[..count]))
  {
    var i := count;
    ghost var rest := charArray3[..count];
    for j := i to 3
      invariant charArray3[..count] == rest && forall k :: i <= k < j ==> charArray3[k] == 0
    {
      charArray3[j] := 0;
    }
    assert charArray3[0] == rest[0] && charArray3[1] == (if count == 2 then rest[1] else 0) && charArray3[2] == 0;
    result := EncodeGroup(charArray3, charArray4, i + 1, initial);
    ghost var symbols := result;
    while i < 3
      invariant count <= i <= 3 && result == symbols + Equals(i - count)
    {
      i := i + 1;
      result := result + "=";
    }
  }

  /** The result, and the i bytes in front of next that are waiting in the array. */
  ghost predicate Waiting(charArray3: array<byte>, i: nat, bytes: seq<byte>, next: nat, result: string, goal: string)
    reads charArray3
  {
    && i <= charArray3.Length && i <= next <= |bytes|
    && charArray3[..i] == bytes[next - i..next]
    && result + Encoded(bytes[next - i..]) == goal
  }

  /** A whole group is waiting. */
  method FlushGroup(charArray3: array<byte>, charArray4: array<byte>, ghost bytes: seq<byte>, ghost next: nat,
      initial: string, ghost goal: string)
    returns (result: string)
    requires charArray3.Length == 3 && charArray4.Length == 4 && charArray3 != charArray4
    requires Waiting(charArray3, 3, bytes, next, initial, goal)
    modifies charArray4
    ensures Waiting(charArray3, 0, bytes, next, result, goal)
  {
    EncodedStep(bytes, next - 3, initial);
    ghost var group := charArray3[..3];
    assert group == bytes[next - 3..next];
    assert group[0] == bytes[next - 3] && group[1] == bytes[next - 2] && group[2] == bytes[next - 1];
    result := EncodeGroup(charArray3, charArray4, 4, initial);
  }

  /** One byte more is waiting. */
  method StoreByte(charArray3: array<byte>, i: nat, bytes: seq<byte>, next: nat, ghost result: string,
      ghost goal: string)
    requires i < charArray3.Length && next < |bytes| && Waiting(charArray3, i, bytes, next, result, goal)
    modifies charArray3
    ensures Waiting(charArray3, i + 1, bytes, next + 1, result, goal)
  {
    ghost var front := charArray3[..i];
    charArray3[i] := bytes[next];
    assert charArray3[..i + 1] == front + [bytes[next]];
    assert bytes[next - i..next + 1] == bytes[next - i..next] + [bytes[next]];
  }

  /** The loop is over. */
  method FlushRest(charArray3: array<byte>, charArray4: array<byte>, i: nat, ghost bytes: seq<byte>,
      initial: string, ghost goal: string)
    returns (result: string)
    requires charArray3.Length == 3 && charArray4.Length == 4 && charArray3 != charArray4 && i < 3
    requires Waiting(charArray3, i, bytes, |bytes|, initial, goal)
    modifies charArray3, charArray4
    ensures result == goal
  {
    result := initial;
    assert bytes[|bytes| - i..] == bytes[|bytes| - i..|bytes|];
    if i > 0 {
      result := EncodeTail(charArray3, charArray4, i, result);
    }
  }

  lemma NothingWaiting(charArray3: array<byte>, bytes: seq<byte>, initial: string)
    ensures Waiting(charArray3, 0, bytes, 0, initial, initial + Encoded(bytes))
  {
    assert bytes[0..] == bytes;
  }

  method Encode(bytesToEncode: seq<byte>, initial: string) returns (result: string)
    ensures result == initial + Encoded(bytesToEncode)
  {
    result := initial;
    ghost var goal := initial + Encoded(bytesToEncode);
    var i := 0;
    var charArray3, charArray4 := new byte[3], new byte[4];
    NothingWaiting(charArray3, bytesToEncode, initial);
    for next := 0 to |bytesToEncode|
      invariant 0 <= i < 3 && Waiting(charArray3, i, bytesToEncode, next, result, goal)
    {
      StoreByte(charArray3, i, bytesToEncode, next, result, goal);
      i := i + 1;
      if i == 3 {
        result := FlushGroup(charArray3, charArray4, bytesToEncode, next + 1, result, goal);
        i := 0;
      }
    }
    result := FlushRest(charArray3, charArray4, i, bytesToEncode, result, goal);
  }

  lemma EncodedStep(bytes: seq<byte>, n: nat, s: string)
    requires n + 3 <= |bytes|
    ensures s + Encoded(bytes[n..]) == s + Quad(bytes[n], bytes[n + 1], bytes[n + 2])[..4] + Encoded(bytes[n + 3..])
  {
    var q := Quad(bytes[n], bytes[n + 1], bytes[n + 2]);
    assert bytes[n..][3..] == bytes[n + 3..];
    Reassociate(s, q, Encoded(bytes[n + 3..]));
    assert q[..4] == q;
  }

  // ----- decoding -----

  /** The characters before the first one outside the alphabet; '=' is outside. */
  function Prefix(s: string): string {
    if s == "" || !IsBase64(s[0]) then "" else [s[0]] + Prefix(s[1..])
  }

  /** The three bytes of four characters. */
  function Triple(c: char, d: char, e: char, f: char): (r: seq<byte>)
    ensures |r| == 3
  {
    [Byte0(IndexOf(c), IndexOf(d)), Byte1(IndexOf(d), IndexOf(e)), Byte2(IndexOf(e), IndexOf(f))]
  }

  function CharAt(s: string, k: nat): char {
    if k < |s| then s[k] else '\0'
  }

  /** What Decode returns for a string of alphabet characters: one byte less than characters for
      an incomplete last group, whose missing characters are looked up as NUL. */
  function DecodedPrefix(s: string): seq<byte> {
    if s == "" then []
    else if |s| < 4 then Triple(s[0], CharAt(s, 1), CharAt(s, 2), CharAt(s, 3))[..|s| - 1]
    else Triple(s[0], s[1], s[2], s[3]) + DecodedPrefix(s[4..])
  }

  function Decoded(s: string): seq<byte> {
    DecodedPrefix(Prefix(s))
  }

  /** Looks up the four characters of a group and joins their sextets. */
  method JoinGroup(raw: string, charArray4: array<byte>, charArray3: array<byte>)
    requires |raw| == 4 && charArray4.Length == 4 && charArray3.Length == 3 && charArray3 != charArray4
    modifies charArray4, charArray3
    ensures charArray3[..] == Triple(raw[0], raw[1], raw[2], raw[3])
  {
    for i := 0 to 4
      invariant forall k :: 0 <= k < i ==> charArray4[k] == IndexOf(raw[k])
    {
      charArray4[i] := IndexOf(raw[i]);
    }
    charArray3[0] := Byte0(charArray4[0], charArray4[1]);
    charArray3[1] := Byte1(charArray4[1], charArray4[2]);
    charArray3[2] := Byte2(charArray4[2], charArray4[3]);
  }

  /** Joins a group and appends its first count bytes. */
  method DecodeGroup(raw: string, charArray4: array<byte>, charArray3: array<byte>, count: nat, initial: seq<byte>)
    returns (ret: seq<byte>)
    requires |raw| == 4 && charArray4.Length == 4 && charArray3.Length == 3 && charArray3 != charArray4 && count <= 3
    modifies charArray4, charArray3
    ensures ret == initial + Triple(raw[0], raw[1], raw[2], raw[3])[..count]
  {
    JoinGroup(raw, charArray4, charArray3);
    ghost var triple := charArray3[..];
    ret := initial;
    for j := 0 to count
      invariant charArray3[..] == triple && ret == initial + triple[..j]
    {
      ret := ret + [charArray3[j]];
    }
  }

  /** The last one to three characters. */
  method DecodeTail(rest: string, charArray4: array<byte>, charArray3: array<byte>, initial: seq<byte>)
    returns (ret: seq<byte>)
    requires 1 <= |rest| <= 3 && charArray4.Length == 4 && charArray3.Length == 3 && charArray3 != charArray4
    modifies charArray4, charArray3
    ensures ret == initial + DecodedPrefix(rest)
  {
    var raw := rest;
    for j := |rest| to 4
      invariant |raw| == j && rest <= raw && forall k :: |rest| <= k < j ==> raw[k] == '\0'
    {
      raw := raw + ['\0'];
    }
    assert forall k :: 0 <= k < 4 ==> raw[k] == CharAt(rest, k);
    ret := DecodeGroup(raw, charArray4, charArray3, |rest| - 1, initial);
  }

  /** The result so far, the characters of the group that was begun, and the rest of the text. */
  ghost predicate Remaining(s: string, next: nat, raw: string, ret: seq<byte>, goal: seq<byte>) {
    next <= |s| && ret + DecodedPrefix(raw + Prefix(s[next..])) == goal
  }

  lemma NothingRead(s: string)
    ensures Remaining(s, 0, "", [], Decoded(s))
  {
    hide DecodedPrefix, Prefix;
    assert s[0..] == s && "" + Prefix(s) == Prefix(s);
  }

  lemma CharRead(s: string, next: nat, raw: string, ret: seq<byte>, goal: seq<byte>)
    requires next < |s| && IsBase64(s[next]) && Remaining(s, next, raw, ret, goal)
    ensures Remaining(s, next + 1, raw + [s[next]], ret, goal)
  {
    hide DecodedPrefix;
    assert s[next..][1..] == s[next + 1..];
    assert raw + Prefix(s[next..]) == raw + [s[next]] + Prefix(s[next + 1..]);
  }

  lemma GroupRead(s: string, next: nat, raw: string, ret: seq<byte>, goal: seq<byte>)
    requires |raw| == 4 && Remaining(s, next, raw, ret, goal)
    ensures Remaining(s, next, "", ret + Triple(raw[0], raw[1], raw[2], raw[3])[..3], goal)
  {
    hide DecodedPrefix, Prefix, Triple;
    DecodedStep(raw, Prefix(s[next..]), ret);
    assert "" + Prefix(s[next..]) == Prefix(s[next..]);
  }

  lemma AllRead(s: string, next: nat, raw: string, ret: seq<byte>, goal: seq<byte>)
    requires Remaining(s, next, raw, ret, goal) && (next < |s| ==> !IsBase64(s[next]))
    ensures ret + DecodedPrefix(raw) == goal && (raw == "" ==> ret == goal)
  {
    hide IsBase64, Triple;
    assert raw + Prefix(s[next..]) == raw;
  }

  method Decode(encodedString: string) returns (ret: seq<byte>)
    ensures ret == Decoded(encodedString)
  {
    hide DecodedPrefix, Prefix, Triple, Decoded, Remaining;
    ghost var goal := Decoded(encodedString);
    var next := 0;
    var raw := "";
    var charArray4, charArray3 := new byte[4], new byte[3];
    ret := [];
    NothingRead(encodedString);
    while next < |encodedString| && encodedString[next] != '=' && IsBase64(encodedString[next])
      invariant next <= |encodedString| && |raw| < 4
      invariant Remaining(encodedString, next, raw, ret, goal)
    {
      CharRead(encodedString, next, raw, ret, goal);
      raw := raw + [encodedString[next]];
      next := next + 1;
      if |raw| == 4 {
        GroupRead(encodedString, next, raw, ret, goal);
        ret := DecodeGroup(raw, charArray4, charArray3, 3, ret);
        raw := "";
      }
    }
    AllRead(encodedString, next, raw, ret, goal);
    if raw != "" {
      ret := DecodeTail(raw, charArray4, charArray3, ret);
    }
  }

  lemma DecodedStep(raw: string, rest: string, r: seq<byte>)
    requires |raw| == 4
    ensures r + DecodedPrefix(raw + rest) == r + Triple(raw[0], raw[1], raw[2], raw[3])[..3] + DecodedPrefix(rest)
  {
    assert (raw + rest)[4..] == rest;
  }

  // ----- encoding against the standard -----

  /** Byte n of a sequence, and zero behind its end. */
  function ByteAt(bytes: seq<byte>, n: nat): byte {
    if n < |bytes| then bytes[n] else 0
  }

  lemma StreamBitOfByte(bytes: seq<byte>, n: nat)
    ensures StreamBit(bytes, n) == BitOf(ByteAt(bytes, n / 8), n % 8)
  {
    assert !BitOf(0, n % 8);
  }

  lemma FirstGroup(bytes: seq<byte>)
    ensures GroupSymbol(bytes, 0) == Symbol(First(ByteAt(bytes, 0)))
  {
    FirstIsBits(ByteAt(bytes, 0));
    StreamBitOfByte(bytes, 0);
    StreamBitOfByte(bytes, 1);
    StreamBitOfByte(bytes, 2);
    StreamBitOfByte(bytes, 3);
    StreamBitOfByte(bytes, 4);
    StreamBitOfByte(bytes, 5);
  }

  lemma SecondGroup(bytes: seq<byte>)
    ensures GroupSymbol(bytes, 1) == Symbol(Second(ByteAt(bytes, 0), ByteAt(bytes, 1)))
  {
    SecondIsBits(ByteAt(bytes, 0), ByteAt(bytes, 1));
    StreamBitOfByte(bytes, 6);
    StreamBitOfByte(bytes, 7);
    StreamBitOfByte(bytes, 8);
    StreamBitOfByte(bytes, 9);
    StreamBitOfByte(bytes, 10);
    StreamBitOfByte(bytes, 11);
  }

  lemma ThirdGroup(bytes: seq<byte>)
    ensures GroupSymbol(bytes, 2) == Symbol(Third(ByteAt(bytes, 1), ByteAt(bytes, 2)))
  {
    ThirdIsBits(ByteAt(bytes, 1), ByteAt(bytes, 2));
    StreamBitOfByte(bytes, 12);
    StreamBitOfByte(bytes, 13);
    StreamBitOfByte(bytes, 14);
    StreamBitOfByte(bytes, 15);
    StreamBitOfByte(bytes, 16);
    StreamBitOfByte(bytes, 17);
  }

  lemma FourthGroup(bytes: seq<byte>)
    ensures GroupSymbol(bytes, 3) == Symbol(Fourth(ByteAt(bytes, 2)))
  {
    FourthIsBits(ByteAt(bytes, 2));
    StreamBitOfByte(bytes, 18);
    StreamBitOfByte(bytes, 19);
    StreamBitOfByte(bytes, 20);
    StreamBitOfByte(bytes, 21);
    StreamBitOfByte(bytes, 22);
    StreamBitOfByte(bytes, 23);
  }

  lemma QuadIsStandard(bytes: seq<byte>)
    ensures forall k :: 0 <= k < 4 ==>
      Quad(ByteAt(bytes, 0), ByteAt(bytes, 1), ByteAt(bytes, 2))[k] == GroupSymbol(bytes, k)
  {
    FirstGroup(bytes);
    SecondGroup(bytes);
    ThirdGroup(bytes);
    FourthGroup(bytes);
  }

  lemma StreamBitShift(bytes: seq<byte>, n: nat)
    requires |bytes| >= 3
    ensures StreamBit(bytes, n + 24) == StreamBit(bytes[3..], n)
  {
    assert (n + 24) / 8 == n / 8 + 3 && (n + 24) % 8 == n % 8;
  }

  lemma GroupSymbolShift(bytes: seq<byte>, k: nat)
    requires |bytes| >= 3
    ensures GroupSymbol(bytes, k + 4) == GroupSymbol(bytes[3..], k)
  {
    hide StreamBit, Sextet, Symbol;
    StreamBitShift(bytes, 6 * k);
    StreamBitShift(bytes, 6 * k + 1);
    StreamBitShift(bytes, 6 * k + 2);
    StreamBitShift(bytes, 6 * k + 3);
    StreamBitShift(bytes, 6 * k + 4);
    StreamBitShift(bytes, 6 * k + 5);
  }

  lemma SplitFour(f: nat -> char, g: nat -> char, quad: string, n: nat)
    requires |quad| == 4 && forall k: nat :: k < 4 ==> f(k) == quad[k]
    requires forall k: nat :: k < n ==> f(k + 4) == g(k)
    ensures Text(n + 4, f) == quad + Text(n, g)
  {
    var whole, rest := Text(n + 4, f), Text(n, g);
    var parts := quad + rest;
    forall k: nat | k < n + 4
      ensures whole[k] == parts[k]
    {
      assert whole[k] == f(k);
      if k >= 4 {
        var m: nat := k - 4;
        assert rest[m] == g(m) == f(m + 4);
        assert parts[k] == rest[m];
      }
    }
    assert whole == parts;
  }

  lemma OneGroupMore(n: nat)
    requires n >= 3
    ensures 4 * ((n + 2) / 3) == 4 * ((n - 3 + 2) / 3) + 4
  {
  }

  /** The first four characters of at least three bytes, and those of fewer bytes. */
  lemma FirstFour(bytes: seq<byte>, k: nat)
    requires k < 4 && bytes != []
    ensures StandardChars(bytes)(k) ==
      if k <= |bytes| then Quad(ByteAt(bytes, 0), ByteAt(bytes, 1), ByteAt(bytes, 2))[k] else '='
  {
    QuadIsStandard(bytes);
  }

  /** The characters of all bytes, and of those behind the first three. */
  ghost predicate AreStandard(bytes: seq<byte>, f: nat -> char, g: nat -> char)
    requires |bytes| >= 3
  {
    f == StandardChars(bytes) && g == StandardChars(bytes[3..])
  }

  lemma LaterChars(bytes: seq<byte>, f: nat -> char, g: nat -> char, k: nat)
    requires |bytes| >= 3 && AreStandard(bytes, f, g)
    ensures f(k + 4) == g(k)
  {
    GroupSymbolShift(bytes, k);
  }

  lemma StandardShort(bytes: seq<byte>)
    requires 1 <= |bytes| <= 2
    ensures Standard(bytes)
      == Quad(ByteAt(bytes, 0), ByteAt(bytes, 1), ByteAt(bytes, 2))[..|bytes| + 1] + Equals(3 - |bytes|)
  {
    var f, expected := StandardChars(bytes),
      Quad(ByteAt(bytes, 0), ByteAt(bytes, 1), ByteAt(bytes, 2))[..|bytes| + 1] + Equals(3 - |bytes|);
    forall k: nat | k < 4
      ensures f(k) == expected[k]
    {
      FirstFour(bytes, k);
    }
    SplitFour(f, f, expected, 0);
  }

  lemma FirstFourOfThree(bytes: seq<byte>)
    requires |bytes| >= 3
    ensures forall k: nat :: k < 4 ==> StandardChars(bytes)(k) == Quad(bytes[0], bytes[1], bytes[2])[k]
  {
    forall k: nat | k < 4
      ensures StandardChars(bytes)(k) == Quad(bytes[0], bytes[1], bytes[2])[k]
    {
      FirstFour(bytes, k);
    }
  }

  lemma AllLaterChars(bytes: seq<byte>, f: nat -> char, g: nat -> char)
    requires |bytes| >= 3 && AreStandard(bytes, f, g)
    ensures forall k: nat {:trigger g(k)} :: f(k + 4) == g(k)
  {
    hide AreStandard;
    forall k: nat
      ensures f(k + 4) == g(k)
    {
      LaterChars(bytes, f, g, k);
    }
  }

  lemma StandardStep(bytes: seq<byte>)
    requires |bytes| >= 3
    ensures Standard(bytes) == Quad(bytes[0], bytes[1], bytes[2]) + Standard(bytes[3..])
  {
    hide GroupSymbol, Text, Quad;
    var f, g := StandardChars(bytes), StandardChars(bytes[3..]);
    FirstFourOfThree(bytes);
    AllLaterChars(bytes, f, g);
    OneGroupMore(|bytes|);
    SplitFour(f, g, Quad(bytes[0], bytes[1], bytes[2]), 4 * ((|bytes| - 3 + 2) / 3));
  }

  /** For every byte sequence Encode appends exactly what section 4 of RFC 4648 prescribes, four
      characters for every three bytes or part of them. */
  lemma {:induction false} EncodedIsStandard(bytes: seq<byte>)
    ensures Encoded(bytes) == Standard(bytes)
    ensures |Encoded(bytes)| == 4 * ((|bytes| + 2) / 3)
  {
    if 1 <= |bytes| <= 2 {
      StandardShort(bytes);
    } else if |bytes| >= 3 {
      EncodedIsStandard(bytes[3..]);
      StandardStep(bytes);
    }
  }

  // ----- decoding against encoding -----

  lemma {:induction false} PrefixOfSymbols(s: string, t: string)
    requires forall c :: c in s ==> IsBase64(c)
    ensures Prefix(s + t) == s + Prefix(t)
  {
    if s != "" {
      assert (s + t)[1..] == s[1..] + t;
      PrefixOfSymbols(s[1..], t);
    } else {
      assert s + t == t;
    }
  }

  lemma QuadSymbols(a: byte, b: byte, c: byte)
    ensures forall k :: 0 <= k < 4 ==> IsBase64(Quad(a, b, c)[k])
    ensures var q := Quad(a, b, c);
      IndexOf(q[0]) == First(a) && IndexOf(q[1]) == Second(a, b) && IndexOf(q[2]) == Third(b, c)
        && IndexOf(q[3]) == Fourth(c)
  {
    SextetsAreSmall(a, b, c);
    LookupRoundTrip(First(a));
    LookupRoundTrip(Second(a, b));
    LookupRoundTrip(Third(b, c));
    LookupRoundTrip(Fourth(c));
  }

  /** A whole group decodes to its three bytes; less of it to one or two bytes. */
  lemma TripleOfQuad(a: byte, b: byte, c: byte, e: char, f: char)
    ensures var q := Quad(a, b, c);
      && Triple(q[0], q[1], q[2], q[3]) == [a, b, c]
      && Triple(q[0], q[1], q[2], f)[..2] == [a, b]
      && Triple(q[0], q[1], e, f)[..1] == [a]
  {
    QuadSymbols(a, b, c);
    BytesOfSextets(a, b, c);
  }

  lemma PrefixOfEquals(n: nat)
    ensures Prefix(Equals(n)) == ""
  {
  }

  /** Decode undoes Encode on every byte sequence. */
  lemma {:induction false} DecodeEncode(bytes: seq<byte>)
    ensures Decoded(Encoded(bytes)) == bytes
  {
    hide IndexOf, Symbol, IsBase64, First, Second, Third, Fourth, Byte0, Byte1, Byte2, Prefix;
    if 1 <= |bytes| <= 2 {
      var a, b, n := bytes[0], if |bytes| > 1 then bytes[1] else 0, |bytes| + 1;
      var quad := Quad(a, b, 0);
      QuadSymbols(a, b, 0);
      PrefixOfSymbols(quad[..n], Equals(4 - n));
      PrefixOfEquals(4 - n);
      TripleOfQuad(a, b, 0, '\0', '\0');
      assert Prefix(Encoded(bytes)) == quad[..n];
    } else if |bytes| >= 3 {
      var quad, rest := Quad(bytes[0], bytes[1], bytes[2]), Encoded(bytes[3..]);
      DecodeEncode(bytes[3..]);
      QuadSymbols(bytes[0], bytes[1], bytes[2]);
      TripleOfQuad(bytes[0], bytes[1], bytes[2], '\0', '\0');
      PrefixOfSymbols(quad, rest);
      DecodedStep(quad, Prefix(rest), []);
    } else {
      PrefixOfEquals(0);
      assert Equals(0) == "";
    }
  }

  lemma QuadOfTriple(c: char, d: char, e: char, f: char)
    requires IsBase64(c) && IsBase64(d) && IsBase64(e) && IsBase64(f)
    ensures var t := Triple(c, d, e, f);
      Quad(t[0], t[1], t[2]) == [c, d, e, f]
  {
    SymbolRoundTrip(c);
    SymbolRoundTrip(d);
    SymbolRoundTrip(e);
    SymbolRoundTrip(f);
    SextetsOfBytes(IndexOf(c), IndexOf(d), IndexOf(e), IndexOf(f));
  }

  lemma EncodedTriple(t: seq<byte>, rest: seq<byte>)
    requires |t| == 3
    ensures Encoded(t + rest) == Quad(t[0], t[1], t[2]) + Encoded(rest)
  {
    assert (t + rest)[3..] == rest;
  }

  predicate LowFourAreZero(v: byte) {
    v & 0x0f == 0
  }

  predicate LowTwoAreZero(v: byte) {
    v & 0x03 == 0
  }

  /** A last group with padding whose spare bits are zero. */
  predicate IsPaddedGroup(s: string) {
    && |s| == 4 && IsBase64(s[0]) && IsBase64(s[1]) && s[3] == '='
    && if IsBase64(s[2]) then LowTwoAreZero(IndexOf(s[2])) else s[2] == '=' && LowFourAreZero(IndexOf(s[1]))
  }

  predicate IsWholeGroup(s: string) {
    |s| >= 4 && IsBase64(s[0]) && IsBase64(s[1]) && IsBase64(s[2]) && IsBase64(s[3])
  }

  /** RFC 4648, sections 3.2 and 3.5: groups of four symbols, the last one padded if the bytes end
      inside it, with zero bits where the bytes have none. */
  predicate IsCanonical(s: string) {
    if IsWholeGroup(s) then IsCanonical(s[4..]) else s == "" || IsPaddedGroup(s)
  }

  lemma SpareBitsOfSextets(a: byte, b: byte)
    ensures LowFourAreZero(Second(a, 0)) && LowTwoAreZero(Third(b, 0))
  {
  }

  lemma SextetsOfOneByte(p: byte, q: byte)
    requires p < 64 && q < 64 && LowFourAreZero(q)
    ensures First(Byte0(p, q)) == p && Second(Byte0(p, q), 0) == q
  {
  }

  lemma SextetsOfTwoBytes(p: byte, q: byte, r: byte)
    requires p < 64 && q < 64 && r < 64 && LowTwoAreZero(r)
    ensures First(Byte0(p, q)) == p && Second(Byte0(p, q), Byte1(q, r)) == q && Third(Byte1(q, r), 0) == r
  {
  }

  lemma EncodedTailIsCanonical(bytes: seq<byte>)
    requires 1 <= |bytes| <= 2
    ensures IsCanonical(Encoded(bytes))
  {
    var b := if |bytes| == 2 then bytes[1] else 0;
    QuadSymbols(bytes[0], b, 0);
    SpareBitsOfSextets(bytes[0], b);
  }

  lemma {:induction false} EncodedIsCanonical(bytes: seq<byte>)
    ensures IsCanonical(Encoded(bytes))
  {
    if 1 <= |bytes| <= 2 {
      EncodedTailIsCanonical(bytes);
    } else if |bytes| >= 3 {
      EncodedIsCanonical(bytes[3..]);
      QuadSymbols(bytes[0], bytes[1], bytes[2]);
      var quad := Quad(bytes[0], bytes[1], bytes[2]);
      assert (quad + Encoded(bytes[3..]))[4..] == Encoded(bytes[3..]);
    }
  }

  lemma DecodedOfOne(s: string)
    requires IsPaddedGroup(s) && s[2] == '='
    ensures Decoded(s) == [Byte0(IndexOf(s[0]), IndexOf(s[1]))]
  {
    PrefixOfSymbols(s[..2], s[2..]);
    assert s == s[..2] + s[2..] && Prefix(s[2..]) == "";
  }

  lemma DecodedOfTwo(s: string)
    requires IsPaddedGroup(s) && s[2] != '='
    ensures Decoded(s) == [Byte0(IndexOf(s[0]), IndexOf(s[1])), Byte1(IndexOf(s[1]), IndexOf(s[2]))]
  {
    PrefixOfSymbols(s[..3], s[3..]);
    assert s == s[..3] + s[3..] && Prefix(s[3..]) == "";
  }

  lemma PaddedGroupComesBack(s: string)
    requires IsPaddedGroup(s)
    ensures Encoded(Decoded(s)) == s
  {
    SymbolRoundTrip(s[0]);
    SymbolRoundTrip(s[1]);
    if s[2] == '=' {
      DecodedOfOne(s);
      SextetsOfOneByte(IndexOf(s[0]), IndexOf(s[1]));
    } else {
      SymbolRoundTrip(s[2]);
      DecodedOfTwo(s);
      SextetsOfTwoBytes(IndexOf(s[0]), IndexOf(s[1]), IndexOf(s[2]));
    }
  }

  lemma DecodedWholeGroup(s: string)
    requires IsWholeGroup(s)
    ensures Decoded(s) == Triple(s[0], s[1], s[2], s[3]) + Decoded(s[4..])
  {
    PrefixOfSymbols(s[..4], s[4..]);
    assert s == s[..4] + s[4..];
    DecodedStep(s[..4], Prefix(s[4..]), []);
  }

  lemma {:induction false} CanonicalComesBack(s: string)
    requires IsCanonical(s)
    ensures Encoded(Decoded(s)) == s
  {
    if IsWholeGroup(s) {
      CanonicalComesBack(s[4..]);
      DecodedWholeGroup(s);
      QuadOfTriple(s[0], s[1], s[2], s[3]);
      EncodedTriple(Triple(s[0], s[1], s[2], s[3]), Decoded(s[4..]));
      assert s == [s[0], s[1], s[2], s[3]] + s[4..];
    } else if s != "" {
      PaddedGroupComesBack(s);
    }
  }

  /** The other way round: encoding gives the decoded text back exactly if the text is canonical. */
  lemma EncodeDecode(s: string)
    ensures Encoded(Decoded(s)) == s <==> IsCanonical(s)
  {
    EncodedIsCanonical(Decoded(s));
    if IsCanonical(s) {
      CanonicalComesBack(s);
    }
  }

  /** Canonical texts are the range of Encode, and on them Decode is injective. */
  lemma CanonicalTextsAreDistinct(s: string, t: string)
    requires IsCanonical(s) && IsCanonical(t)
    ensures Decoded(s) == Decoded(t) <==> s == t
  {
    CanonicalComesBack(s);
    CanonicalComesBack(t);
  }

  /** Text without padding is canonical exactly if it is whole groups. */
  lemma {:induction false} WholeGroupsAreCanonical(s: string)
    requires forall c :: c in s ==> IsBase64(c)
    ensures IsCanonical(s) <==> |s| % 4 == 0
  {
    if |s| >= 4 {
      WholeGroupsAreCanonical(s[4..]);
    }
  }

  // ----- decoding of any text -----

  /** From the first character outside the alphabet on nothing counts. */
  lemma {:induction false} DecodingStops(s: string, c: char, t: string)
    requires !IsBase64(c)
    ensures Prefix(s + [c] + t) == Prefix(s) && Decoded(s + [c] + t) == Decoded(s)
  {
    if s != "" {
      DecodingStops(s[1..], c, t);
      assert (s + [c] + t)[1..] == s[1..] + [c] + t;
    }
  }

  lemma ShortFilled(s: string, n: nat)
    requires 0 < n < 4 && |s| + n == 4
    ensures DecodedPrefix(s) == DecodedPrefix(s + "AAA"[..n])[..3 - n]
  {
    hide IndexOf, Byte0, Byte1, Byte2;
    var t := s + "AAA"[..n];
    assert t[4..] == "";
  }

  lemma {:induction false} FilledPrefix(s: string, n: nat)
    requires 0 < n < 4 && (|s| + n) % 4 == 0
    ensures var filled := DecodedPrefix(s + "AAA"[..n]);
      |filled| >= n && DecodedPrefix(s) == filled[..|filled| - n]
  {
    hide Triple;
    var t := s + "AAA"[..n];
    if |s| >= 4 {
      FilledPrefix(s[4..], n);
      assert t[4..] == s[4..] + "AAA"[..n];
    } else {
      ShortFilled(s, n);
      assert t[4..] == "";
    }
  }

  /** An incomplete last group is read as if it were filled with characters of the value zero, and the bytes
      these would take part in are dropped. With WholeGroupsAreCanonical and EncodeDecode, which determine
      what whole groups decode to, this says what every text decodes to. */
  lemma IncompleteGroupIsFilled(s: string, n: nat)
    requires (forall c :: c in s ==> IsBase64(c)) && 0 < n < 4 && (|s| + n) % 4 == 0
    ensures var filled := Decoded(s + "AAA"[..n]);
      |filled| >= n && Decoded(s) == filled[..|filled| - n]
  {
    PrefixOfSymbols(s, "");
    PrefixOfSymbols(s + "AAA"[..n], "");
    assert s + "" == s && s + "AAA"[..n] + "" == s + "AAA"[..n];
    FilledPrefix(s, n);
  }
}
