/** The AES pass of subsys/dfu/dfu_flash.c over a received buffer, block by block and usually in place. */
module BlockCipher {
  import opened Bytes

  const BLOCK := 16

  ghost predicate BlockFunction(f: seq<byte> -> seq<byte>) {
    forall b: seq<byte> :: |b| == BLOCK ==> |f(b)| == BLOCK
  }

  /** f applied to each whole block; a last part shorter than a block is left alone. */
  function ByBlocks(f: seq<byte> -> seq<byte>, s: seq<byte>): seq<byte> {
    if |s| < BLOCK then s else f(s[..BLOCK]) + ByBlocks(f, s[BLOCK..])
  }

  lemma {:induction false} ByBlocksLength(f: seq<byte> -> seq<byte>, s: seq<byte>)
    requires BlockFunction(f)
    ensures |ByBlocks(f, s)| == |s|
  {
    if |s| >= BLOCK {
      assert |f(s[..BLOCK])| == BLOCK;
      ByBlocksLength(f, s[BLOCK..]);
    }
  }

  /** Whole blocks in front may be treated on their own. */
  lemma {:induction false} ByBlocksSplit(f: seq<byte> -> seq<byte>, s: seq<byte>, t: seq<byte>)
    requires BlockFunction(f) && |s| % BLOCK == 0
    ensures ByBlocks(f, s + t) == ByBlocks(f, s) + ByBlocks(f, t)
  {
    if s == [] {
      assert s + t == t;
    } else {
      assert (s + t)[..BLOCK] == s[..BLOCK] && (s + t)[BLOCK..] == s[BLOCK..] + t;
      ByBlocksSplit(f, s[BLOCK..], t);
      assert f(s[..BLOCK]) + (ByBlocks(f, s[BLOCK..]) + ByBlocks(f, t)) ==
             (f(s[..BLOCK]) + ByBlocks(f, s[BLOCK..])) + ByBlocks(f, t);
    }
  }

  lemma OneBlock(f: seq<byte> -> seq<byte>, s: seq<byte>)
    requires BlockFunction(f) && |s| == BLOCK
    ensures ByBlocks(f, s) == f(s)
  {
    assert s[..BLOCK] == s && s[BLOCK..] == [];
    assert ByBlocks(f, []) == [];
    assert f(s) + [] == f(s);
  }

  /** hw_aes_decrypt_16byte at one offset. */
  method DecryptBlock(f: seq<byte> -> seq<byte>, input: array<byte>, output: array<byte>, offset: nat)
    requires BlockFunction(f) && offset + BLOCK <= input.Length && offset + BLOCK <= output.Length
    modifies output
    ensures output[..] == old(output[..offset]) + f(old(input[offset..offset + BLOCK])) + old(output[offset + BLOCK..])
  {
    var plain := f(input[offset..offset + BLOCK]);
    forall k | 0 <= k < BLOCK {
      output[offset + k] := plain[k];
    }
    assert output[offset..offset + BLOCK] == plain;
  }

  /** dfu_hw_aes_decrypt_image; input and output may be the same array. The output receives the treated
      blocks; of a last part shorter than a block nothing is written. */
  method DecryptImage(f: seq<byte> -> seq<byte>, input: array<byte>, output: array<byte>, length: nat)
    requires BlockFunction(f) && length <= input.Length && length <= output.Length
    modifies output
    ensures var whole := length - length % BLOCK;
            output[..] == ByBlocks(f, old(input[..whole])) + old(output[whole..])
    ensures input == output ==> output[..] == ByBlocks(f, old(input[..length])) + old(output[length..])
  {
    hide ByBlocks;
    ghost var whole := length - length % BLOCK;
    ghost var before, target := input[..], output[..];
    NoBlocks(f);
    var offset := 0;
    while length - offset >= BLOCK
      invariant offset % BLOCK == 0 && 0 <= offset <= whole
      invariant |ByBlocks(f, before[..offset])| == offset
      invariant output[..] == ByBlocks(f, before[..offset]) + target[offset..]
      invariant input != output ==> input[..] == before
      invariant input == output ==> target == before
      decreases length - offset
    {
      assert input[offset..offset + BLOCK] == before[offset..offset + BLOCK];
      NextBlock(f, before, offset);
      assert output[..offset] == ByBlocks(f, before[..offset]) && output[offset + BLOCK..] == target[offset + BLOCK..];
      DecryptBlock(f, input, output, offset);
      offset := offset + BLOCK;
    }
    assert offset == whole;
    if input == output {
      ShortTail(f, before, whole, length);
    }
  }

  lemma NoBlocks(f: seq<byte> -> seq<byte>)
    ensures ByBlocks(f, []) == []
  {
  }

  lemma NextBlock(f: seq<byte> -> seq<byte>, s: seq<byte>, offset: nat)
    requires BlockFunction(f) && offset % BLOCK == 0 && offset + BLOCK <= |s|
    ensures ByBlocks(f, s[..offset + BLOCK]) == ByBlocks(f, s[..offset]) + f(s[offset..offset + BLOCK])
    ensures |f(s[offset..offset + BLOCK])| == BLOCK
  {
    assert s[..offset] + s[offset..offset + BLOCK] == s[..offset + BLOCK];
    ByBlocksSplit(f, s[..offset], s[offset..offset + BLOCK]);
    OneBlock(f, s[offset..offset + BLOCK]);
  }

  lemma ShortTail(f: seq<byte> -> seq<byte>, s: seq<byte>, whole: nat, length: nat)
    requires BlockFunction(f) && whole % BLOCK == 0 && whole <= length <= |s| && length - whole < BLOCK
    ensures ByBlocks(f, s[..length]) + s[length..] == ByBlocks(f, s[..whole]) + s[whole..]
  {
    assert s[..whole] + s[whole..length] == s[..length];
    assert s[whole..length] + s[length..] == s[whole..];
    ByBlocksSplit(f, s[..whole], s[whole..length]);
    assert ByBlocks(f, s[whole..length]) == s[whole..length];
  }

  /** Decrypting undoes block-wise encryption, whatever the length, when the block functions are inverse. */
  lemma {:induction false} DecryptUndoesEncrypt(enc: seq<byte> -> seq<byte>, dec: seq<byte> -> seq<byte>, s: seq<byte>)
    requires BlockFunction(enc) && BlockFunction(dec)
    requires forall b: seq<byte> :: |b| == BLOCK ==> dec(enc(b)) == b
    ensures ByBlocks(dec, ByBlocks(enc, s)) == s
  {
    if |s| >= BLOCK {
      var c, rest := enc(s[..BLOCK]), ByBlocks(enc, s[BLOCK..]);
      assert |c| == BLOCK;
      assert (c + rest)[..BLOCK] == c && (c + rest)[BLOCK..] == rest;
      DecryptUndoesEncrypt(enc, dec, s[BLOCK..]);
    }
  }

  // ---------- what a sender has to do ----------

  /** cipher is plain with f applied to its first n blocks, one by one, and the rest as it is. */
  ghost predicate SealedBlocks(f: seq<byte> -> seq<byte>, plain: seq<byte>, cipher: seq<byte>, n: nat) {
    && |cipher| == |plain| && BLOCK * n <= |plain|
    && (forall i :: 0 <= i < n ==> BlockAt(cipher, i) == f(BlockAt(plain, i)))
    && cipher[BLOCK * n..] == plain[BLOCK * n..]
  }

  function BlockAt(s: seq<byte>, i: nat): seq<byte> {
    if BLOCK * i + BLOCK <= |s| then s[BLOCK * i..BLOCK * i + BLOCK] else []
  }

  /** What the device is to receive for it to end up with plain. */
  ghost predicate Seals(f: seq<byte> -> seq<byte>, plain: seq<byte>, cipher: seq<byte>) {
    SealedBlocks(f, plain, cipher, |plain| / BLOCK)
  }

  lemma BlockAtLater(s: seq<byte>, i: nat)
    requires BLOCK <= |s|
    ensures BlockAt(s[BLOCK..], i) == BlockAt(s, i + 1)
  {
    if BLOCK * (i + 1) + BLOCK <= |s| {
      Shifted(s, BLOCK, BLOCK * i, BLOCK * i + BLOCK);
    }
  }

  lemma Shifted(s: seq<byte>, n: nat, from: nat, to: nat)
    requires n <= |s| && from <= to && n + to <= |s|
    ensures s[n..][from..to] == s[n + from..n + to]
  {
  }

  lemma SealsFirst(f: seq<byte> -> seq<byte>, plain: seq<byte>, cipher: seq<byte>, n: nat)
    requires 0 < n && SealedBlocks(f, plain, cipher, n)
    ensures cipher[..BLOCK] == f(plain[..BLOCK])
    ensures SealedBlocks(f, plain[BLOCK..], cipher[BLOCK..], n - 1)
  {
    assert BlockAt(cipher, 0) == f(BlockAt(plain, 0));
    assert BlockAt(cipher, 0) == cipher[..BLOCK] && BlockAt(plain, 0) == plain[..BLOCK];
    forall i | 0 <= i < n - 1
      ensures BlockAt(cipher[BLOCK..], i) == f(BlockAt(plain[BLOCK..], i))
    {
      assert BlockAt(cipher, i + 1) == f(BlockAt(plain, i + 1));
      BlockAtLater(cipher, i);
      BlockAtLater(plain, i);
    }
    assert cipher[BLOCK..][BLOCK * (n - 1)..] == cipher[BLOCK * n..];
    assert plain[BLOCK..][BLOCK * (n - 1)..] == plain[BLOCK * n..];
  }

  /** The pass is this and nothing else: every whole block on its own, in its place, and the rest untouched. */
  lemma {:induction false} ByBlocksSeals(f: seq<byte> -> seq<byte>, plain: seq<byte>, cipher: seq<byte>)
    requires BlockFunction(f)
    ensures Seals(f, plain, cipher) <==> cipher == ByBlocks(f, plain)
  {
    ByBlocksLength(f, plain);
    if |plain| < BLOCK {
      assert BLOCK * 0 == 0 && cipher[0..] == cipher && plain[0..] == plain;
    } else if |cipher| == |plain| {
      var n := |plain| / BLOCK;
      ByBlocksSeals(f, plain[BLOCK..], cipher[BLOCK..]);
      assert cipher == cipher[..BLOCK] + cipher[BLOCK..];
      assert |plain[BLOCK..]| / BLOCK == n - 1;
      if Seals(f, plain, cipher) {
        SealsFirst(f, plain, cipher, n);
      } else if cipher == ByBlocks(f, plain) {
        SealsOneMore(f, plain, cipher, n);
      }
    }
  }

  lemma SealsOneMore(f: seq<byte> -> seq<byte>, plain: seq<byte>, cipher: seq<byte>, n: nat)
    requires 0 < n && BLOCK * n <= |plain| == |cipher| && cipher[..BLOCK] == f(plain[..BLOCK])
    requires SealedBlocks(f, plain[BLOCK..], cipher[BLOCK..], n - 1)
    ensures SealedBlocks(f, plain, cipher, n)
  {
    forall i | 0 <= i < n
      ensures BlockAt(cipher, i) == f(BlockAt(plain, i))
    {
      if i == 0 {
        assert BlockAt(cipher, 0) == cipher[..BLOCK] && BlockAt(plain, 0) == plain[..BLOCK];
      } else {
        BlockAtLater(cipher, i - 1);
        BlockAtLater(plain, i - 1);
      }
    }
    assert cipher[BLOCK..][BLOCK * (n - 1)..] == cipher[BLOCK * n..];
    assert plain[BLOCK..][BLOCK * (n - 1)..] == plain[BLOCK * n..];
  }

  /** The device undoes what the sender did, whatever the length. */
  lemma SealedIsRecovered(enc: seq<byte> -> seq<byte>, dec: seq<byte> -> seq<byte>, plain: seq<byte>, cipher: seq<byte>)
    requires BlockFunction(enc) && BlockFunction(dec)
    requires forall b: seq<byte> :: |b| == BLOCK ==> dec(enc(b)) == b
    requires Seals(enc, plain, cipher)
    ensures ByBlocks(dec, cipher) == plain
  {
    hide ByBlocks, SealedBlocks;
    ByBlocksSeals(enc, plain, cipher);
    DecryptUndoesEncrypt(enc, dec, plain);
  }
}
