/**
 Path-safe file keys (ResourceKey in internal/generation/store.go): two ids, each
 in unpadded base64url (section 5 of RFC 4648), joined by a dot. Ids are bytes,
 as Go strings are.
 */
module ResourceKey {
  import opened Basics

  newtype Byte = b: int | 0 <= b < 256
  type Bytes = seq<Byte>

  /** One character of the base64url alphabet. */
  function Letter(n: int): (c: char)
    requires 0 <= n < 64
    ensures c != '.' && c != '/'
  {
    if n < 26 then 'A' + n as char
    else if n < 52 then 'a' + (n - 26) as char
    else if n < 62 then '0' + (n - 52) as char
    else if n == 62 then '-' else '_'
  }

  /** Three bytes as four letters, six bits each, high bits first. */
  function Group(a: Byte, b: Byte, c: Byte): (g: string)
    ensures |g| == 4 && '.' !in g && '/' !in g
  {
    var x, y, z := a as int, b as int, c as int;
    [Letter(x / 4), Letter(x % 4 * 16 + y / 16), Letter(y % 16 * 4 + z / 64), Letter(z % 64)]
  }

  /** base64.RawURLEncoding: three bytes give four letters, a rest of one or two bytes gives two or three. */
  function Encode(s: Bytes): (e: string)
    ensures '.' !in e && '/' !in e
  {
    if s == [] then ""
    else if |s| == 1 then Group(s[0], 0, 0)[..2]
    else if |s| == 2 then Group(s[0], s[1], 0)[..3]
    else Group(s[0], s[1], s[2]) + Encode(s[3..])
  }

  /** The value of a letter, by table 2 of RFC 4648. */
  function Digit(c: char): (n: int)
    ensures 0 <= n < 64
  {
    if 'A' <= c <= 'Z' then c as int - 'A' as int
    else if 'a' <= c <= 'z' then c as int - 'a' as int + 26
    else if '0' <= c <= '9' then c as int - '0' as int + 52
    else if c == '-' then 62 else 63
  }

  /** The bytes four letters stand for. */
  function Ungroup(g: string): (s: Bytes)
    requires |g| == 4
    ensures |s| == 3
  {
    var n := ((Digit(g[0]) * 64 + Digit(g[1])) * 64 + Digit(g[2])) * 64 + Digit(g[3]);
    [(n / 65536) as Byte, (n / 256 % 256) as Byte, (n % 256) as Byte]
  }

  /** Reading letters back, four at a time, a rest filled up with zeros. */
  function Decode(e: string): Bytes {
    if |e| < 2 then []
    else if |e| == 2 then Ungroup(e + "AA")[..1]
    else if |e| == 3 then Ungroup(e + "A")[..2]
    else Ungroup(e[..4]) + Decode(e[4..])
  }

  lemma DigitOfLetter(n: int)
    requires 0 <= n < 64
    ensures Digit(Letter(n)) == n && (n == 63 ==> Letter(n) == '_')
  {
  }

  lemma Bits(a: int, b: int, c: int)
    requires 0 <= a < 256 && 0 <= b < 256 && 0 <= c < 256
    ensures (((a / 4) * 64 + (a % 4 * 16 + b / 16)) * 64 + (b % 16 * 4 + c / 64)) * 64 + c % 64 == a * 65536 + b * 256 + c
  {
  }

  lemma BytesOf(a: int, b: int, c: int)
    requires 0 <= a < 256 && 0 <= b < 256 && 0 <= c < 256
    ensures var n := a * 65536 + b * 256 + c;
            n / 65536 == a && n / 256 % 256 == b && n % 256 == c
  {
  }

  lemma GroupIsReadBack(a: Byte, b: Byte, c: Byte)
    ensures Ungroup(Group(a, b, c)) == [a, b, c]
  {
    hide Letter, Digit;
    var x, y, z := a as int, b as int, c as int;
    DigitOfLetter(x / 4);
    DigitOfLetter(x % 4 * 16 + y / 16);
    DigitOfLetter(y % 16 * 4 + z / 64);
    DigitOfLetter(z % 64);
    Bits(x, y, z);
    BytesOf(x, y, z);
  }

  lemma ZerosAreA(a: Byte, b: Byte)
    ensures Group(a, 0, 0)[..2] + "AA" == Group(a, 0, 0) && Group(a, b, 0)[..3] + "A" == Group(a, b, 0)
  {
  }

  /** The file name of an id is its base64url encoding: reading it back gives the id. */
  lemma {:induction false} EncodeIsReadBack(s: Bytes)
    ensures Decode(Encode(s)) == s
  {
    hide Group, Ungroup;
    if s == [] {
    } else if |s| == 1 {
      ZerosAreA(s[0], 0);
      GroupIsReadBack(s[0], 0, 0);
    } else if |s| == 2 {
      ZerosAreA(s[0], s[1]);
      GroupIsReadBack(s[0], s[1], 0);
    } else {
      var g := Group(s[0], s[1], s[2]);
      EncodeIsReadBack(s[3..]);
      GroupIsReadBack(s[0], s[1], s[2]);
      assert (g + Encode(s[3..]))[..4] == g && (g + Encode(s[3..]))[4..] == Encode(s[3..]);
      assert [s[0], s[1], s[2]] + s[3..] == s;
    }
  }

  /** Four letters for three bytes, and one more than the rest for a rest: no padding. */
  lemma {:induction false} EncodedLength(s: Bytes)
    ensures |Encode(s)| == |s| / 3 * 4 + (if |s| % 3 == 0 then 0 else |s| % 3 + 1)
  {
    if |s| > 2 {
      EncodedLength(s[3..]);
    }
  }

  /** Different ids have different file names. */
  lemma EncodeIsInjective(s: Bytes, t: Bytes)
    requires Encode(s) == Encode(t)
    ensures s == t
  {
    EncodeIsReadBack(s);
    EncodeIsReadBack(t);
  }

  /** The bytes of "workspace". */
  const WORKSPACE: Bytes := [119, 111, 114, 107, 115, 112, 97, 99, 101]

  predicate BlankByte(b: Byte) { b == 32 || 9 <= b <= 13 }

  function TrimBytes(s: Bytes): Bytes {
    if s != [] && BlankByte(s[0]) then TrimBytes(s[1..])
    else if s != [] && BlankByte(s[|s| - 1]) then TrimBytes(s[..|s| - 1])
    else s
  }

  lemma NothingIsBlank()
    ensures AllBlank([])
  {
  }

  lemma BlankBefore(s: Bytes, front: Bytes, t: Bytes, back: Bytes) returns (longer: Bytes)
    requires s != [] && BlankByte(s[0]) && AllBlank(front) && s[1..] == front + t + back
    ensures AllBlank(longer) && s == longer + t + back
  {
    longer := [s[0]] + front;
    assert s == [s[0]] + s[1..];
  }

  lemma BlankAfter(s: Bytes, front: Bytes, t: Bytes, back: Bytes) returns (longer: Bytes)
    requires s != [] && BlankByte(s[|s| - 1]) && AllBlank(back) && s[..|s| - 1] == front + t + back
    ensures AllBlank(longer) && s == front + t + longer
  {
    longer := back + [s[|s| - 1]];
    assert s == s[..|s| - 1] + [s[|s| - 1]];
  }

  /** strings.TrimSpace: only white space is taken away, from both ends, and all of it. */
  lemma {:induction false} TrimBytesMeans(s: Bytes) returns (front: Bytes, back: Bytes)
    ensures s == front + TrimBytes(s) + back && AllBlank(front) && AllBlank(back)
    ensures var t := TrimBytes(s); t != [] ==> !BlankByte(t[0]) && !BlankByte(t[|t| - 1])
    decreases |s|
  {
    hide AllBlank;
    if s != [] && BlankByte(s[0]) {
      front, back := TrimBytesMeans(s[1..]);
      front := BlankBefore(s, front, TrimBytes(s), back);
    } else if s != [] && BlankByte(s[|s| - 1]) {
      front, back := TrimBytesMeans(s[..|s| - 1]);
      back := BlankAfter(s, front, TrimBytes(s), back);
    } else {
      front, back := [], [];
      NothingIsBlank();
    }
  }

  predicate AllBlank(s: Bytes) { forall k :: 0 <= k < |s| ==> BlankByte(s[k]) }

  /** Tab, line feed, vertical tab, form feed, carriage return and space. */
  lemma BlankMeans(b: Byte)
    ensures BlankByte(b) <==> b in {9, 10, 11, 12, 13, 32}
  {
  }

  lemma TrimsToNothing(s: Bytes)
    ensures TrimBytes(s) == [] <==> AllBlank(s)
  {
    var front, back := TrimBytesMeans(s);
    if TrimBytes(s) == [] {
      assert s == front + back;
    } else {
      assert s[|front|] == TrimBytes(s)[0];
    }
  }

  /** NormalizeResourceID: the empty address is the Workspace root. */
  function NormalizeResource(resource: Bytes): Bytes {
    if TrimBytes(resource) == [] then WORKSPACE else TrimBytes(resource)
  }

  function Key(instance: Bytes, resource: Bytes): Option<string> {
    if TrimBytes(instance) == [] then None
    else Some(Encode(TrimBytes(instance)) + "." + Encode(NormalizeResource(resource)))
  }

  lemma DotSplits(a: string, b: string, c: string, d: string)
    requires '.' !in a && '.' !in c && a + "." + b == c + "." + d
    ensures a == c && b == d
  {
    var s := a + "." + b;
    assert s == c + "." + d;
    assert s[|a|] == '.' && s[|c|] == '.';
    assert forall k :: 0 <= k < |a| ==> s[k] == a[k];
    assert forall k :: 0 <= k < |c| ==> s[k] == c[k];
    assert |a| == |c|;
    assert a == s[..|a|] && c == s[..|c|] && b == s[|a| + 1..] && d == s[|c| + 1..];
  }

  /** Without an instance there is no key; without a resource it is that of the Workspace root. */
  lemma KeyMeans(instance: Bytes, resource: Bytes)
    ensures Key(instance, resource).None? <==> AllBlank(instance)
    ensures Key(instance, resource).Some? ==>
              Key(instance, resource).value ==
              Encode(TrimBytes(instance)) + "." +
                Encode(if AllBlank(resource) then [119, 111, 114, 107, 115, 112, 97, 99, 101] else TrimBytes(resource))
  {
    TrimsToNothing(instance);
    TrimsToNothing(resource);
  }

  /** Two addresses share a directory exactly when they are the same resource of the same Workspace instance. */
  lemma KeysAreUnambiguous(i: Bytes, r: Bytes, i': Bytes, r': Bytes)
    requires Key(i, r).Some? && Key(i', r').Some?
    ensures Key(i, r) == Key(i', r') <==> TrimBytes(i) == TrimBytes(i') && NormalizeResource(r) == NormalizeResource(r')
    ensures '/' !in Key(i, r).value
  {
    if Key(i, r) == Key(i', r') {
      DotSplits(Encode(TrimBytes(i)), Encode(NormalizeResource(r)), Encode(TrimBytes(i')), Encode(NormalizeResource(r')));
      EncodeIsInjective(TrimBytes(i), TrimBytes(i'));
      EncodeIsInjective(NormalizeResource(r), NormalizeResource(r'));
    }
  }
}
