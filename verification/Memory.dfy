/** Byte memories and the register file, which the simulators keep in a byte memory too. */
module Memory {
  import opened Words

  const REG_RSP: Nibble := 4
  const REG_NONE: Nibble := 15

  // ----- values -----

  predicate ByteOk(m: seq<Byte>, pos: int) {
    0 <= pos < |m|
  }

  predicate WordOk(m: seq<Byte>, pos: int) {
    0 <= pos && pos + 8 <= |m|
  }

  /** The word at pos, or 0 (the callers' initial value) when any of its bytes is out of range. */
  function WordAt(m: seq<Byte>, pos: int): Word {
    if WordOk(m, pos) then WordOf(m[pos..pos + 8]) else 0
  }

  /** The memory after storing v at pos; a store that does not fit changes nothing. */
  function StoreWord(m: seq<Byte>, pos: int, v: Word): (m': seq<Byte>)
    ensures |m'| == |m|
  {
    if WordOk(m, pos) then m[..pos] + Encode(v, 8) + m[pos + 8..] else m
  }

  lemma LoadAfterStore(m: seq<Byte>, pos: int, v: Word)
    requires WordOk(m, pos)
    ensures WordAt(StoreWord(m, pos, v), pos) == v
  {
    assert StoreWord(m, pos, v)[pos..pos + 8] == Encode(v, 8);
    WordRoundTrip(v);
  }

  predicate Apart(a: int, alen: nat, b: int, blen: nat) {
    a + alen <= b || b + blen <= a
  }

  lemma StoreElsewhere(m: seq<Byte>, pos: int, v: Word, lo: int, hi: int)
    requires 0 <= lo <= hi <= |m| && Apart(pos, 8, lo, hi - lo)
    ensures StoreWord(m, pos, v)[lo..hi] == m[lo..hi]
  {
    if WordOk(m, pos) && lo < hi {
      var m' := StoreWord(m, pos, v);
      forall i | lo <= i < hi ensures m'[i] == m[i] {
        if i < pos {
          assert m'[i] == m[..pos][i];
        } else {
          assert m'[i] == m[pos + 8..][i - (pos + 8)];
        }
      }
    }
  }

  /** Program registers 0..14 and one word of padding. The code 15 names no register: it reads as 0
      and ignores writes. */
  type RegFile = r: seq<Word> | |r| == 16 witness seq(16, i => 0)

  function GetReg(r: RegFile, id: Nibble): Word {
    if id < REG_NONE then r[id] else 0
  }

  function SetReg(r: RegFile, id: Nibble, v: Word): RegFile {
    if id < REG_NONE then r[id := v] else r
  }

  /** The register values held by a 128-byte register memory. */
  function Registers(bytes: seq<Byte>): (r: RegFile)
    requires |bytes| == 128
  {
    seq(16, i requires 0 <= i < 16 => WordAt(bytes, 8 * i))
  }

  lemma RegistersAfterStore(bytes: seq<Byte>, id: Nibble, v: Word)
    requires |bytes| == 128 && id < REG_NONE
    ensures Registers(StoreWord(bytes, 8 * id, v)) == SetReg(Registers(bytes), id, v)
  {
    var after := StoreWord(bytes, 8 * id, v);
    LoadAfterStore(bytes, 8 * id, v);
    forall i | 0 <= i < 16 && i != id
      ensures WordAt(after, 8 * i) == WordAt(bytes, 8 * i)
    {
      StoreElsewhere(bytes, 8 * id, v, 8 * i, 8 * i + 8);
    }
  }

  // ----- the mutable memory -----

  lemma {:induction false} DecodeSnoc(bs: seq<Byte>, b: Byte)
    ensures Decode(bs + [b]) == Decode(bs) + b * Pow256(|bs|)
  {
    if bs == [] {
      assert bs + [b] == [b];
    } else {
      assert (bs + [b])[1..] == bs[1..] + [b];
      DecodeSnoc(bs[1..], b);
      assert 256 * (b * Pow256(|bs| - 1)) == b * Pow256(|bs|);
    }
  }

  class Mem {
    const contents: array<Byte>

    constructor (len: nat)
      ensures fresh(this.contents) && contents[..] == seq(len, i => 0)
    {
      contents := new Byte[len](i => 0);
      new;
      assert contents[..] == seq(len, i => 0);
    }

    /** A new memory with the same bytes (copy_mem). */
    constructor Copy(other: Mem)
      ensures fresh(this.contents) && contents[..] == other.contents[..]
    {
      var bytes := other.contents[..];
      contents := new Byte[|bytes|](i requires 0 <= i < |bytes| => bytes[i]);
      new;
      assert contents[..] == bytes;
    }

    method GetByteVal(pos: Word) returns (ok: bool, dest: Byte)
      ensures ok == ByteOk(contents[..], pos)
      ensures dest == if ok then contents[pos] else 0
    {
      if pos < 0 || pos >= contents.Length {
        return false, 0;
      }
      return true, contents[pos];
    }

    method GetWordVal(pos: Word) returns (ok: bool, dest: Word)
      ensures ok == WordOk(contents[..], pos)
      ensures dest == WordAt(contents[..], pos)
    {
      if pos < 0 || pos + 8 > contents.Length {
        return false, 0;
      }
      var val: nat, shift: nat := 0, 1;
      for i := 0 to 8
        invariant shift == Pow256(i)
        invariant val == Decode(contents[pos..pos + i])
      {
        assert contents[pos..pos + i + 1] == contents[pos..pos + i] + [contents[pos + i]];
        DecodeSnoc(contents[pos..pos + i], contents[pos + i]);
        val := val + contents[pos + i] * shift;
        shift := 256 * shift;
      }
      assert contents[..][pos..pos + 8] == contents[pos..pos + 8];
      return true, Wrap(val);
    }

    method SetWordVal(pos: Word, v: Word) returns (ok: bool)
      modifies contents
      ensures ok == old(WordOk(contents[..], pos))
      ensures !ok ==> contents[..] == old(contents[..])
      ensures contents[..] == old(StoreWord(contents[..], pos, v))
    {
      if pos < 0 || pos + 8 > contents.Length {
        return false;
      }
      ghost var n: nat, target, before := 8, Encode(v, 8), contents[..];
      var val: int := v;
      for i := 0 to 8
        invariant n == 8 && |target| == n && target[i..] == Encode(val, n - i)
        invariant forall k :: 0 <= k < i ==> contents[pos + k] == target[k]
        invariant forall k :: 0 <= k < contents.Length && !(pos <= k < pos + i) ==> contents[k] == before[k]
      {
        assert target[i] == Encode(val, n - i)[0] == val % 256;
        assert target[i + 1..] == target[i..][1..];
        contents[pos + i] := val % 256;
        val := val / 256;
      }
      assert contents[..] == before[..pos] + target + before[pos + 8..];
      return true;
    }

    method GetRegVal(id: Nibble) returns (val: Word)
      requires contents.Length == 128
      ensures val == GetReg(Registers(contents[..]), id)
    {
      if id >= REG_NONE {
        return 0;
      }
      var ok;
      ok, val := GetWordVal(id * 8);
    }

    method SetRegVal(id: Nibble, val: Word)
      requires contents.Length == 128
      modifies contents
      ensures Registers(contents[..]) == old(SetReg(Registers(contents[..]), id, val))
    {
      hide Encode, WordOf, StoreWord;
      if id < REG_NONE {
        RegistersAfterStore(contents[..], id, val);
        hide Registers;
        var ok := SetWordVal(id * 8, val);
      }
    }
  }
}
