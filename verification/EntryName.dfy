/** Entry-name validation: the byte loop accepts exactly the strings of the multi-byte grammar. */
module EntryName {
  import opened Bytes

  /** How many continuation bytes a lead byte announces, by the table in section 2 of RFC 2279,
      which allows up to five. Zero, continuation bytes, 0xFE and 0xFF start no character. */
  function Announced(lead: byte): (n: int)
    ensures -1 <= n <= 5
  {
    if 0x01 <= lead <= 0x7F then 0
    else if 0xC0 <= lead <= 0xDF then 1
    else if 0xE0 <= lead <= 0xEF then 2
    else if 0xF0 <= lead <= 0xF7 then 3
    else if 0xF8 <= lead <= 0xFB then 4
    else if 0xFC <= lead <= 0xFD then 5
    else -1
  }

  predicate IsContinuation(b: byte) {
    0x80 <= b <= 0xBF
  }

  predicate IsCharacter(c: seq<byte>) {
    && |c| > 0
    && Announced(c[0]) == |c| - 1
    && forall i :: 1 <= i < |c| ==> IsContinuation(c[i])
  }

  function Concat(chars: seq<seq<byte>>): (s: seq<byte>) {
    if chars == [] then [] else chars[0] + Concat(chars[1..])
  }

  /** The grammar: a name is a concatenation of characters. */
  ghost predicate Spells(chars: seq<seq<byte>>, name: seq<byte>) {
    && Concat(chars) == name
    && forall i :: 0 <= i < |chars| ==> IsCharacter(chars[i])
  }

  ghost predicate IsWellFormed(name: seq<byte>) {
    exists chars :: Spells(chars, name)
  }

  /** The same language, read off deterministically from the left. */
  predicate Scans(s: seq<byte>) {
    s == [] ||
    var n := Announced(s[0]);
    0 <= n < |s| && IsCharacter(s[..n + 1]) && Scans(s[n + 1..])
  }

  lemma SpellsCons(c: seq<byte>, chars: seq<seq<byte>>, rest: seq<byte>, s: seq<byte>)
    requires IsCharacter(c) && Spells(chars, rest) && s == c + rest
    ensures Spells([c] + chars, s)
  {
    assert ([c] + chars)[1..] == chars;
  }

  lemma {:induction false} ScansGivesCharacters(s: seq<byte>)
    requires Scans(s)
    ensures IsWellFormed(s)
  {
    if s == [] {
      assert Spells([], s);
    } else {
      var n := Announced(s[0]);
      ScansGivesCharacters(s[n + 1..]);
      var chars :| Spells(chars, s[n + 1..]);
      SpellsCons(s[..n + 1], chars, s[n + 1..], s);
    }
  }

  lemma {:induction false} CharactersGiveScans(chars: seq<seq<byte>>, s: seq<byte>)
    requires Spells(chars, s)
    ensures Scans(s)
    decreases |chars|
  {
    if chars != [] {
      var c := chars[0];
      CharactersGiveScans(chars[1..], Concat(chars[1..]));
      assert IsCharacter(c) && s[0] == c[0] && s[..|c|] == c && s[|c|..] == Concat(chars[1..]);
    }
  }

  lemma ScansIffWellFormed(s: seq<byte>)
    ensures Scans(s) <==> IsWellFormed(s)
  {
    if Scans(s) {
      ScansGivesCharacters(s);
    }
    if IsWellFormed(s) {
      var chars :| Spells(chars, s);
      CharactersGiveScans(chars, s);
    }
  }

  /** The number of leading one bits, which the inner loop consumes by shifting left. */
  function LeadingOnes(b: byte): (n: nat) {
    if b < 128 then 0 else 1 + LeadingOnes(2 * b - 256)
  }

  lemma LeadingOnesAnnounce(b: byte)
    requires 0xC0 <= b <= 0xFD
    ensures LeadingOnes(2 * b - 256) == Announced(b)
  {
    assert LeadingOnes(2 * b - 256) == 1 + LeadingOnes(4 * b - 768);
    if b >= 0xE0 {
      assert LeadingOnes(4 * b - 768) == 1 + LeadingOnes(8 * b - 1792);
      if b >= 0xF0 {
        assert LeadingOnes(8 * b - 1792) == 1 + LeadingOnes(16 * b - 3840);
        if b >= 0xF8 {
          assert LeadingOnes(16 * b - 3840) == 1 + LeadingOnes(32 * b - 7936);
          if b >= 0xFC {
            assert LeadingOnes(32 * b - 7936) == 1 + LeadingOnes(64 * b - 16128);
          }
        }
      }
    }
  }

  predicate CharacterAt(name: seq<byte>, i: nat)
    requires i < |name|
  {
    var n := Announced(name[i]);
    0 <= n < |name| - i && IsCharacter(name[i..i + n + 1])
  }

  lemma ScansFrom(name: seq<byte>, i: nat)
    requires i < |name|
    ensures Scans(name[i..]) == (CharacterAt(name, i) && Scans(name[i + Announced(name[i]) + 1..]))
  {
    var rest, n := name[i..], Announced(name[i]);
    if 0 <= n < |rest| {
      assert rest[..n + 1] == name[i..i + n + 1] && rest[n + 1..] == name[i + n + 1..];
    }
  }

  /** The inner loop: from a lead byte at `start`, step over one continuation byte for every further
      leading one bit; `end` is the last byte of the character. */
  method ScanContinuations(name: seq<byte>, start: nat) returns (ok: bool, end: nat)
    requires start < |name| && 0xC0 <= name[start] <= 0xFD
    ensures ok <==> CharacterAt(name, start)
    ensures ok ==> end == start + Announced(name[start])
  {
    var b := name[start];
    LeadingOnesAnnounce(b);
    end := start;
    var first := b % 128 * 2;
    while first / 128 == 1
      invariant start <= end < |name| && 0 <= first < 256
      invariant LeadingOnes(first) == Announced(b) - (end - start)
      invariant forall k :: start < k <= end ==> IsContinuation(name[k])
      decreases |name| - end
    {
      end := end + 1;
      if end == |name| {
        return false, end;
      }
      if name[end] / 64 != 2 {
        assert start + Announced(b) < |name| ==> name[start..start + Announced(b) + 1][end - start] == name[end];
        return false, end;
      }
      first := first % 128 * 2;
    }
    return true, end;
  }

  /** One turn of the outer loop. The masks `byte & 0x80`, `byte & 0xc0` and `byte & 0xfe` are written
      as the quotients they compare, `(byte & 0x7f) << 1` as `byte % 128 * 2`. */
  method ScanCharacter(name: seq<byte>, i: nat) returns (ok: bool, end: nat)
    requires i < |name|
    ensures ok <==> CharacterAt(name, i)
    ensures ok ==> end == i + Announced(name[i])
  {
    var b := name[i];
    if b == 0 {
      return false, i;
    } else if b / 128 == 0 {
      return true, i;
    } else if b / 64 == 2 || b / 2 == 127 {
      return false, i;
    } else {
      ok, end := ScanContinuations(name, i);
    }
  }

  /** The names both the writer and the reader accept. */
  predicate ValidName(name: seq<byte>) {
    |name| <= U16_MAX && Scans(name)
  }

  /** A name is accepted exactly when its length fits the 16-bit field and it spells characters. */
  method IsValidEntryName(name: seq<byte>) returns (ok: bool)
    ensures ok <==> |name| <= U16_MAX && IsWellFormed(name)
    ensures ok <==> ValidName(name)
  {
    ScansIffWellFormed(name);
    if |name| > U16_MAX {
      return false;
    }
    var i := 0;
    assert name[0..] == name;
    while i < |name|
      invariant 0 <= i <= |name|
      invariant Scans(name) == Scans(name[i..])
    {
      ScansFrom(name, i);
      var found, end := ScanCharacter(name, i);
      if !found {
        return false;
      }
      i := end + 1;
    }
    return true;
  }

  // ----- what names can say -----

  /** A continuation byte with six bits of a character. */
  function Six(bits: nat): (b: byte)
    ensures IsContinuation(b)
  {
    0x80 + bits % 64
  }

  /** The encoding of a character, by section 2 of RFC 2279. */
  function Encode(c: nat): (s: seq<byte>)
    requires 0 < c < 0x8000_0000
  {
    if c < 0x80 then [c]
    else if c < 0x800 then [0xC0 + c / 64, Six(c)]
    else if c < 0x1_0000 then [0xE0 + c / 4096, Six(c / 64), Six(c)]
    else if c < 0x20_0000 then [0xF0 + c / 0x4_0000, Six(c / 4096), Six(c / 64), Six(c)]
    else if c < 0x400_0000 then [0xF8 + c / 0x100_0000, Six(c / 0x4_0000), Six(c / 4096), Six(c / 64), Six(c)]
    else [0xFC + c / 0x4000_0000, Six(c / 0x100_0000), Six(c / 0x4_0000), Six(c / 4096), Six(c / 64), Six(c)]
  }

  predicate Characters(cs: seq<nat>) {
    forall i :: 0 <= i < |cs| ==> 0 < cs[i] < 0x8000_0000
  }

  function EncodeAll(cs: seq<nat>): (s: seq<byte>)
    requires Characters(cs)
  {
    if cs == [] then [] else Encode(cs[0]) + EncodeAll(cs[1..])
  }

  lemma EncodedScans(c: nat, rest: seq<byte>)
    requires 0 < c < 0x8000_0000 && Scans(rest)
    ensures Scans(Encode(c) + rest)
  {
    var e, s := Encode(c), Encode(c) + rest;
    assert IsCharacter(e);
    assert s[..|e|] == e && s[|e|..] == rest && s[0] == e[0];
  }

  /** Every text without a zero character can be a name, as far as its length goes. */
  lemma {:induction false} TextIsWellFormed(cs: seq<nat>)
    requires Characters(cs)
    ensures Scans(EncodeAll(cs)) && IsWellFormed(EncodeAll(cs))
    decreases |cs|
  {
    if cs != [] {
      TextIsWellFormed(cs[1..]);
      EncodedScans(cs[0], EncodeAll(cs[1..]));
    }
    ScansIffWellFormed(EncodeAll(cs));
  }

  lemma {:induction false} ScannedBytes(name: seq<byte>, k: nat)
    requires Scans(name) && k < |name|
    ensures name[k] !in {0, 0xFE, 0xFF} && !IsContinuation(name[0])
    decreases |name|
  {
    var n := Announced(name[0]);
    if k <= n {
      assert name[..n + 1][k] == name[k];
    } else {
      ScannedBytes(name[n + 1..], k - n - 1);
    }
  }

  /** No name has a byte 0, 0xFE or 0xFF, and none starts or ends inside a character. */
  lemma WellFormedBytes(name: seq<byte>, k: nat)
    requires IsWellFormed(name) && k < |name|
    ensures name[k] !in {0, 0xFE, 0xFF} && !IsContinuation(name[0])
    ensures name[|name| - 1] < 0xC0
  {
    ScansIffWellFormed(name);
    ScannedBytes(name, k);
    LastByte(name);
  }

  lemma {:induction false} LastByte(name: seq<byte>)
    requires Scans(name) && name != []
    ensures name[|name| - 1] < 0xC0
    decreases |name|
  {
    var n := Announced(name[0]);
    if |name| == n + 1 {
      assert name[..n + 1][n] == name[n];
    } else {
      LastByte(name[n + 1..]);
    }
  }
}
