/** Bytes, little-endian integers and the byte-sequence facts the zip modules share. */
module Bytes {

  type byte = b: int | 0 <= b < 256
  type u16 = x: int | 0 <= x <= 0xFFFF
  type u32 = x: int | 0 <= x <= 0xFFFF_FFFF
  type u64 = x: int | 0 <= x <= 0xFFFF_FFFF_FFFF_FFFF

  const U16_MAX: nat := 0xFFFF
  const U32_MAX: nat := 0xFFFF_FFFF

  /** Narrowing casts keep the low bits. */
  function Low16(x: nat): (r: u16)
    ensures x <= U16_MAX ==> r == x
  {
    x % 0x1_0000
  }

  function Low32(x: nat): (r: u32)
    ensures x <= U32_MAX ==> r == x
  {
    x % 0x1_0000_0000
  }

  /** Little-endian reads at an offset. */
  function Get16(s: seq<byte>, o: nat): (x: u16)
    requires o + 2 <= |s|
  {
    s[o] as int + 256 * (s[o + 1] as int)
  }

  function Get32(s: seq<byte>, o: nat): (x: u32)
    requires o + 4 <= |s|
  {
    Get16(s, o) as int + 0x1_0000 * (Get16(s, o + 2) as int)
  }

  function Get64(s: seq<byte>, o: nat): (x: u64)
    requires o + 8 <= |s|
  {
    Get32(s, o) as int + 0x1_0000_0000 * (Get32(s, o + 4) as int)
  }

  /** Little-endian writes. */
  function Put16(x: u16): (s: seq<byte>)
    ensures |s| == 2
  {
    [x % 256, x / 256]
  }

  function Put32(x: u32): (s: seq<byte>)
    ensures |s| == 4
  {
    Put16(x % 0x1_0000) + Put16(x / 0x1_0000)
  }

  function Put64(x: u64): (s: seq<byte>)
    ensures |s| == 8
  {
    Put32(x % 0x1_0000_0000) + Put32(x / 0x1_0000_0000)
  }

  lemma GetPut16(s: seq<byte>, o: nat, x: u16)
    requires o + 2 <= |s| && s[o..o + 2] == Put16(x)
    ensures Get16(s, o) == x
  {
    assert s[o] == s[o..o + 2][0] && s[o + 1] == s[o..o + 2][1];
  }

  lemma PutGet16(s: seq<byte>, o: nat)
    requires o + 2 <= |s|
    ensures Put16(Get16(s, o)) == s[o..o + 2]
  {}

  lemma GetPut32(s: seq<byte>, o: nat, x: u32)
    requires o + 4 <= |s| && s[o..o + 4] == Put32(x)
    ensures Get32(s, o) == x
  {
    assert s[o..o + 2] == s[o..o + 4][..2] == Put16(x % 0x1_0000);
    assert s[o + 2..o + 4] == s[o..o + 4][2..] == Put16(x / 0x1_0000);
    GetPut16(s, o, x % 0x1_0000);
    GetPut16(s, o + 2, x / 0x1_0000);
  }

  lemma GetPut64(s: seq<byte>, o: nat, x: u64)
    requires o + 8 <= |s| && s[o..o + 8] == Put64(x)
    ensures Get64(s, o) == x
  {
    assert s[o..o + 4] == s[o..o + 8][..4] == Put32(x % 0x1_0000_0000);
    assert s[o + 4..o + 8] == s[o..o + 8][4..] == Put32(x / 0x1_0000_0000);
    GetPut32(s, o, x % 0x1_0000_0000);
    GetPut32(s, o + 4, x / 0x1_0000_0000);
  }

  lemma PutGet32(s: seq<byte>, o: nat)
    requires o + 4 <= |s|
    ensures Put32(Get32(s, o)) == s[o..o + 4]
  {
    PutGet16(s, o);
    PutGet16(s, o + 2);
    var x := Get32(s, o);
    assert x % 0x1_0000 == Get16(s, o) && x / 0x1_0000 == Get16(s, o + 2);
    assert s[o..o + 4] == s[o..o + 2] + s[o + 2..o + 4];
  }

  lemma PutGet64(s: seq<byte>, o: nat)
    requires o + 8 <= |s|
    ensures Put64(Get64(s, o)) == s[o..o + 8]
  {
    PutGet32(s, o);
    PutGet32(s, o + 4);
    var x := Get64(s, o);
    assert x % 0x1_0000_0000 == Get32(s, o) && x / 0x1_0000_0000 == Get32(s, o + 4);
    assert s[o..o + 8] == s[o..o + 4] + s[o + 4..o + 8];
  }

  /** A field holds a value exactly if the bytes there are its encoding. */
  lemma Reads32(s: seq<byte>, o: nat, x: u32)
    requires o + 4 <= |s|
    ensures Get32(s, o) == x <==> s[o..o + 4] == Put32(x)
  {
    PutGet32(s, o);
    if s[o..o + 4] == Put32(x) { GetPut32(s, o, x); }
  }

  lemma Reads64(s: seq<byte>, o: nat, x: u64)
    requires o + 8 <= |s|
    ensures Get64(s, o) == x <==> s[o..o + 8] == Put64(x)
  {
    PutGet64(s, o);
    if s[o..o + 8] == Put64(x) { GetPut64(s, o, x); }
  }

  lemma SliceOfSlice(s: seq<byte>, o: nat, n: nat, i: nat, j: nat)
    requires o + n <= |s| && i <= j <= n
    ensures s[o..o + n][i..j] == s[o + i..o + j]
  {
    var a, b := s[o..o + n][i..j], s[o + i..o + j];
    assert forall k :: 0 <= k < j - i ==> a[k] == b[k];
  }

  /** A 16-bit field `k` bytes into a record `enc` that lies at offset `o` of `s`. */
  lemma Field16(s: seq<byte>, o: nat, enc: seq<byte>, k: nat, x: u16)
    requires o + |enc| <= |s| && s[o..o + |enc|] == enc
    requires k + 2 <= |enc| && enc[k..k + 2] == Put16(x)
    ensures Get16(s, o + k) == x
  {
    SliceOfSlice(s, o, |enc|, k, k + 2);
    GetPut16(s, o + k, x);
  }

  /** A 32-bit field `k` bytes into a record `enc` that lies at offset `o` of `s`. */
  lemma Field32(s: seq<byte>, o: nat, enc: seq<byte>, k: nat, x: u32)
    requires o + |enc| <= |s| && s[o..o + |enc|] == enc
    requires k + 4 <= |enc| && enc[k..k + 4] == Put32(x)
    ensures Get32(s, o + k) == x
  {
    SliceOfSlice(s, o, |enc|, k, k + 4);
    GetPut32(s, o + k, x);
  }

  /** A 64-bit field `k` bytes into a record `enc` that lies at offset `o` of `s`. */
  lemma Field64(s: seq<byte>, o: nat, enc: seq<byte>, k: nat, x: u64)
    requires o + |enc| <= |s| && s[o..o + |enc|] == enc
    requires k + 8 <= |enc| && enc[k..k + 8] == Put64(x)
    ensures Get64(s, o + k) == x
  {
    SliceOfSlice(s, o, |enc|, k, k + 8);
    GetPut64(s, o + k, x);
  }

  function Zeros(n: nat): (s: seq<byte>)
    ensures |s| == n
  {
    seq(n, _ => 0)
  }

  /** The effect of writing `data` at position `pos` of a file: any gap is zero-filled, the
      tail beyond the written range survives. */
  function Overwrite(content: seq<byte>, pos: nat, data: seq<byte>): (r: seq<byte>)
    ensures |r| == if data == [] then |content| else if pos + |data| <= |content| then |content| else pos + |data|
  {
    if data == [] then content
    else if |content| < pos then content + Zeros(pos - |content|) + data
    else content[..pos] + data + (if pos + |data| <= |content| then content[pos + |data|..] else [])
  }

  lemma OverwriteAt(content: seq<byte>, pos: nat, data: seq<byte>)
    requires pos <= |content|
    ensures pos + |data| <= |Overwrite(content, pos, data)|
    ensures Overwrite(content, pos, data)[..pos + |data|] == content[..pos] + data
    ensures pos + |data| <= |content| ==> Overwrite(content, pos, data)[pos + |data|..] == content[pos + |data|..]
  {}

  /** Writing right after a known prefix extends it. */
  lemma AppendToPrefix(content: seq<byte>, prefix: seq<byte>, data: seq<byte>)
    requires prefix <= content
    ensures prefix + data <= Overwrite(content, |prefix|, data)
  {
    OverwriteAt(content, |prefix|, data);
  }

  lemma AppendToPair(content: seq<byte>, a: seq<byte>, b: seq<byte>, data: seq<byte>)
    requires a + b <= content
    ensures a + (b + data) <= Overwrite(content, |a + b|, data)
  {
    AppendToPrefix(content, a + b, data);
    assert a + (b + data) == (a + b) + data;
  }

  // ----- pieces back to back -----

  function Flatten(pieces: seq<seq<byte>>): (s: seq<byte>) {
    if pieces == [] then [] else Flatten(pieces[..|pieces| - 1]) + pieces[|pieces| - 1]
  }

  lemma FlattenAppend(pieces: seq<seq<byte>>, p: seq<byte>)
    ensures Flatten(pieces + [p]) == Flatten(pieces) + p
  {
    assert (pieces + [p])[..|pieces|] == pieces;
  }

  lemma {:induction false} FlattenPrefix(pieces: seq<seq<byte>>, i: nat)
    requires i <= |pieces|
    ensures Flatten(pieces[..i]) <= Flatten(pieces)
    decreases |pieces|
  {
    if i < |pieces| {
      var front := pieces[..|pieces| - 1];
      FlattenPrefix(front, i);
      assert front[..i] == pieces[..i];
    } else {
      assert pieces[..i] == pieces;
    }
  }

  /** Each piece is found again at the offset where the earlier ones end. */
  lemma FlattenSlice(pieces: seq<seq<byte>>, i: nat)
    requires i < |pieces|
    ensures var o := |Flatten(pieces[..i])|;
            && o + |pieces[i]| == |Flatten(pieces[..i + 1])| <= |Flatten(pieces)|
            && Flatten(pieces)[o..o + |pieces[i]|] == pieces[i]
  {
    FlattenPrefix(pieces, i + 1);
    assert pieces[..i + 1] == pieces[..i] + [pieces[i]];
    FlattenAppend(pieces[..i], pieces[i]);
  }

  lemma FlattenNext(pieces: seq<seq<byte>>, i: nat)
    requires i < |pieces|
    ensures Flatten(pieces[..i + 1]) == Flatten(pieces[..i]) + pieces[i]
  {
    assert pieces[..i + 1] == pieces[..i] + [pieces[i]];
    FlattenAppend(pieces[..i], pieces[i]);
  }

  function SumLengths(pieces: seq<seq<byte>>, i: nat): (n: nat)
    requires i <= |pieces|
  {
    if i == 0 then 0 else SumLengths(pieces, i - 1) + |pieces[i - 1]|
  }

  lemma {:induction false} FlattenLength(pieces: seq<seq<byte>>, i: nat)
    requires i <= |pieces|
    ensures |Flatten(pieces[..i])| == SumLengths(pieces, i)
    decreases i
  {
    if i > 0 {
      FlattenLength(pieces, i - 1);
      FlattenSlice(pieces, i - 1);
    }
  }

  /** The same, with offsets counted in lengths. */
  lemma PieceAt(pieces: seq<seq<byte>>, i: nat)
    requires i < |pieces|
    ensures SumLengths(pieces, i + 1) <= |Flatten(pieces)|
    ensures Flatten(pieces)[SumLengths(pieces, i)..SumLengths(pieces, i + 1)] == pieces[i]
  {
    FlattenLength(pieces, i);
    FlattenLength(pieces, i + 1);
    FlattenSlice(pieces, i);
  }

  /** Reading back the two halves of a piece. */
  lemma SplitSlice(s: seq<byte>, o: nat, a: seq<byte>, b: seq<byte>)
    requires o + |a| + |b| <= |s| && s[o..o + |a| + |b|] == a + b
    ensures s[o..o + |a|] == a && s[o + |a|..o + |a| + |b|] == b
  {
    SliceOfSlice(s, o, |a| + |b|, 0, |a|);
    SliceOfSlice(s, o, |a| + |b|, |a|, |a| + |b|);
  }
}
