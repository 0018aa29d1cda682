/** blockwise.c: input gathered into whole blocks, padding, and key material spent in pieces. The
    callbacks and their context are a function and the value it updates. */
module CfBlockwise {
  import opened CfBits
  import opened Common
  import opened Octets

  // ---------------------------------------------------------------- accumulation as functions

  /** A context after whole blocks went through it, and the octets left over. */
  datatype Held<T> = Held(ctx: T, pending: seq<octet>)

  /** Feeds `data` block by block; a block that ends the data goes to `last` instead. */
  function Absorb<T>(n: nat, process: (T, seq<octet>) -> T, last: (T, seq<octet>) -> T, ctx: T, data: seq<octet>)
    : (h: Held<T>)
    requires n > 0
    ensures |h.pending| < n
    decreases |data|
  {
    if |data| < n then Held(ctx, data)
    else if |data| == n then Held(last(ctx, data), [])
    else Absorb(n, process, last, process(ctx, data[..n]), data[n..])
  }

  lemma AbsorbBlock<T>(n: nat, process: (T, seq<octet>) -> T, last: (T, seq<octet>) -> T, ctx: T,
                       block: seq<octet>, rest: seq<octet>)
    requires 0 < n == |block| && rest != []
    ensures Absorb(n, process, last, ctx, block + rest) == Absorb(n, process, last, process(ctx, block), rest)
  {
    assert (block + rest)[..n] == block && (block + rest)[n..] == rest;
  }

  /** Any split of the input gives the same: what is held after the first part goes before the
      second. The second part may end in a special last block if it is not empty. */
  lemma {:induction false} AbsorbSplit<T>(n: nat, process: (T, seq<octet>) -> T, last: (T, seq<octet>) -> T,
                                          ctx: T, a: seq<octet>, b: seq<octet>)
    requires n > 0 && (b != [] || last == process)
    ensures var h := Absorb(n, process, process, ctx, a);
            Absorb(n, process, last, ctx, a + b) == Absorb(n, process, last, h.ctx, h.pending + b)
    decreases |a|
  {
    if |a| < n {
    } else if |a| == n {
      if b == [] {
        assert a + b == a && [] + b == [];
      } else {
        hide Absorb;
        AbsorbLast(n, process, ctx, a);
        AbsorbBlock(n, process, last, ctx, a, b);
        assert [] + b == b;
      }
    } else {
      hide Absorb;
      AbsorbMore(n, process, process, ctx, a);
      AbsorbSplit(n, process, last, process(ctx, a[..n]), a[n..], b);
      assert a[..n] + (a[n..] + b) == a + b;
      AbsorbBlock(n, process, last, ctx, a[..n], a[n..] + b);
    }
  }

  lemma AbsorbLast<T>(n: nat, last: (T, seq<octet>) -> T, ctx: T, data: seq<octet>)
    requires 0 < n == |data|
    ensures Absorb(n, last, last, ctx, data) == Held(last(ctx, data), [])
  {
  }

  lemma AbsorbMore<T>(n: nat, process: (T, seq<octet>) -> T, last: (T, seq<octet>) -> T, ctx: T, data: seq<octet>)
    requires 0 < n < |data|
    ensures Absorb(n, process, last, ctx, data) == Absorb(n, process, last, process(ctx, data[..n]), data[n..])
  {
  }

  function Repeat(b: octet, n: nat): (r: seq<octet>)
    ensures |r| == n && forall i :: 0 <= i < n ==> r[i] == b
  {
    seq(n, _ => b)
  }

  /** The octets `cf_blockwise_acc_pad` stands for. */
  function Padding(first: octet, middle: octet, last: octet, n: nat): (r: seq<octet>)
    ensures |r| == n
  {
    if n == 0 then []
    else if n == 1 then [first ^ last]
    else [first] + Repeat(middle, n - 2) + [last]
  }

  // ---------------------------------------------------------------- accumulation in place

  /** The start of `cf_blockwise_accumulate_final`: input that completes held octets to a block. */
  method CompleteBlock<T>(partial: array<octet>, npartial: nat, input: seq<octet>,
                          process: (T, seq<octet>) -> T, processFinal: (T, seq<octet>) -> T, ctx: T)
    returns (npartial': nat, ctx': T, rest: seq<octet>)
    requires 0 < npartial < partial.Length && input != []
    modifies partial
    ensures npartial' < partial.Length && (npartial' == 0 || rest == [])
    ensures Absorb(partial.Length, process, processFinal, ctx, old(partial[..npartial]) + input)
         == Absorb(partial.Length, process, processFinal, ctx', partial[..npartial'] + rest)
  {
    var nblock := partial.Length;
    var taken := Min(nblock - npartial, |input|);
    rest := input[taken..];
    assert partial[..npartial] + input == (partial[..npartial] + input[..taken]) + rest;
    Memcpy(partial, npartial, input[..taken]);
    npartial', ctx' := npartial + taken, ctx;
    if npartial' == nblock {
      var block := partial[..];
      assert partial[..npartial'] == block;
      if rest == [] {
        assert block + rest == block;
        ctx' := processFinal(ctx', block);
      } else {
        AbsorbBlock(nblock, process, processFinal, ctx', block, rest);
        ctx' := process(ctx', block);
      }
      npartial' := 0;
      assert partial[..0] + rest == rest;
    }
  }

  /** `cf_blockwise_accumulate_final`. */
  method AccumulateFinal<T>(partial: array<octet>, npartial: nat, input: seq<octet>,
                            process: (T, seq<octet>) -> T, processFinal: (T, seq<octet>) -> T, ctx: T)
    returns (npartial': nat, ctx': T)
    requires npartial < partial.Length
    modifies partial
    ensures npartial' < partial.Length
    ensures Held(ctx', partial[..npartial'])
         == Absorb(partial.Length, process, processFinal, ctx, old(partial[..npartial]) + input)
  {
    hide Absorb;
    var rest := input;
    npartial', ctx' := npartial, ctx;
    if npartial' != 0 && rest != [] {
      npartial', ctx', rest := CompleteBlock(partial, npartial, input, process, processFinal, ctx);
    }
    npartial', ctx', rest := WholeBlocks(partial, npartial', rest, process, processFinal, ctx');
    if rest == [] {
      assert partial[..npartial'] + rest == partial[..npartial'];
    } else {
      assert partial[..0] + rest == rest;
      Memcpy(partial, npartial', rest);
      assert partial[..|rest|] == rest;
      npartial' := npartial' + |rest|;
    }
  }

  /** The loop of `cf_blockwise_accumulate_final` that takes blocks straight from the input. */
  method WholeBlocks<T>(partial: array<octet>, npartial: nat, input: seq<octet>,
                        process: (T, seq<octet>) -> T, processFinal: (T, seq<octet>) -> T, ctx: T)
    returns (npartial': nat, ctx': T, rest: seq<octet>)
    requires npartial < partial.Length && (npartial == 0 || input == [])
    ensures npartial' == npartial && |rest| < partial.Length && (npartial == 0 || rest == [])
    ensures Absorb(partial.Length, process, processFinal, ctx, partial[..npartial] + input)
         == Held(ctx', partial[..npartial] + rest)
  {
    var nblock := partial.Length;
    npartial', ctx', rest := npartial, ctx, input;
    assert partial[..0] + input == input;
    while |rest| >= nblock
      invariant npartial == 0 || rest == input == []
      invariant Absorb(nblock, process, processFinal, ctx, partial[..npartial] + input)
             == Absorb(nblock, process, processFinal, ctx', if npartial == 0 then rest else partial[..npartial])
    {
      if |rest| == nblock {
        ctx' := processFinal(ctx', rest);
      } else {
        ctx' := process(ctx', rest[..nblock]);
      }
      rest := rest[nblock..];
    }
    assert partial[..npartial] + [] == partial[..npartial];
    assert partial[..0] + rest == rest;
  }

  /** A round of `cf_blockwise_acc_byte`: `count` of `left` octets go after what is held. */
  lemma ByteRound<T>(n: nat, process: (T, seq<octet>) -> T, ctx: T, held: seq<octet>, b: octet, count: nat, left: nat)
    requires 0 < count <= left && |held| + count <= n
    ensures var block := held + Repeat(b, count);
      Absorb(n, process, process, ctx, held + Repeat(b, left))
      == if |block| == n then Absorb(n, process, process, process(ctx, block), [] + Repeat(b, left - count))
         else Absorb(n, process, process, ctx, block + Repeat(b, left - count))
  {
    var block := held + Repeat(b, count);
    assert held + Repeat(b, left) == block + Repeat(b, left - count);
    AbsorbSplit(n, process, process, ctx, block, Repeat(b, left - count));
  }

  /** One round of `cf_blockwise_acc_byte`; a buffer that is filled with the octet is not written. */
  method FillRound<T>(partial: array<octet>, npartial: nat, b: octet, count: nat, filled: bool,
                      process: (T, seq<octet>) -> T, ctx: T)
    returns (npartial': nat, ctx': T)
    requires npartial < partial.Length && 0 < count <= partial.Length - npartial
    requires filled ==> partial[..] == Repeat(b, partial.Length)
    modifies partial
    ensures filled || (npartial == 0 && count == partial.Length) ==> partial[..] == Repeat(b, partial.Length)
    ensures npartial' < partial.Length
    ensures var block := old(partial[..npartial]) + Repeat(b, count);
      if |block| == partial.Length then npartial' == 0 && ctx' == process(ctx, block)
      else ctx' == ctx && partial[..npartial'] == block
  {
    ghost var block := partial[..npartial] + Repeat(b, count);
    if !filled {
      Memcpy(partial, npartial, Repeat(b, count));
    }
    assert partial[..npartial + count] == block;
    npartial', ctx' := npartial + count, ctx;
    if npartial' == partial.Length {
      assert partial[..] == block;
      npartial', ctx' := 0, process(ctx, partial[..]);
    }
  }

  /** `cf_blockwise_acc_byte`. */
  method AccumulateByte<T>(partial: array<octet>, npartial: nat, b: octet, nbytes: nat,
                           process: (T, seq<octet>) -> T, ctx: T)
    returns (npartial': nat, ctx': T)
    requires npartial < partial.Length
    modifies partial
    ensures npartial' < partial.Length
    ensures Held(ctx', partial[..npartial'])
         == Absorb(partial.Length, process, process, ctx, old(partial[..npartial]) + Repeat(b, nbytes))
  {
    var nblock, left, filled := partial.Length, nbytes, false;
    npartial', ctx' := npartial, ctx;
    hide Absorb, Repeat;
    while left > 0
      invariant 0 <= left <= nbytes && npartial' < nblock
      invariant filled ==> partial[..] == Repeat(b, nblock)
      invariant Absorb(nblock, process, process, ctx, old(partial[..npartial]) + Repeat(b, nbytes))
             == Absorb(nblock, process, process, ctx', partial[..npartial'] + Repeat(b, left))
    {
      var count := Min(left, nblock - npartial');
      ByteRound(nblock, process, ctx', partial[..npartial'], b, count, left);
      var fills := npartial' == 0 && count == nblock;
      npartial', ctx' := FillRound(partial, npartial', b, count, filled, process, ctx');
      assert npartial' == 0 ==> partial[..npartial'] == [];
      filled := filled || fills;
      left := left - count;
    }
    assert partial[..npartial'] + Repeat(b, 0) == partial[..npartial'];
    AbsorbHeld(nblock, process, ctx', partial[..npartial']);
  }

  lemma AbsorbHeld<T>(n: nat, process: (T, seq<octet>) -> T, ctx: T, data: seq<octet>)
    requires |data| < n
    ensures Absorb(n, process, process, ctx, data) == Held(ctx, data)
  {
  }

  /** `cf_blockwise_acc_pad`. */
  method AccumulatePad<T>(partial: array<octet>, npartial: nat, fbyte: octet, mbyte: octet, lbyte: octet, nbytes: nat,
                          process: (T, seq<octet>) -> T, ctx: T)
    returns (npartial': nat, ctx': T)
    requires npartial < partial.Length
    modifies partial
    ensures npartial' < partial.Length
    ensures Held(ctx', partial[..npartial'])
         == Absorb(partial.Length, process, process, ctx,
                   old(partial[..npartial]) + Padding(fbyte, mbyte, lbyte, nbytes))
  {
    ghost var n, held := partial.Length, partial[..npartial];
    PaddingSplit(n, process, ctx, held, fbyte, mbyte, lbyte, nbytes);
    if nbytes == 0 {
      return npartial, ctx;
    }
    if nbytes == 1 {
      npartial', ctx' := AccumulateFinal(partial, npartial, [fbyte ^ lbyte], process, process, ctx);
      return;
    }
    hide Absorb, Padding;
    npartial', ctx' := AccumulateFinal(partial, npartial, [fbyte], process, process, ctx);
    ghost var ctx1, held1 := ctx', partial[..npartial'];
    PaddingRest(n, process, ctx1, held1, mbyte, lbyte, nbytes - 2);
    if nbytes == 2 {
      npartial', ctx' := AccumulateFinal(partial, npartial', [lbyte], process, process, ctx');
    } else if lbyte != mbyte {
      npartial', ctx' := AccumulateByte(partial, npartial', mbyte, nbytes - 2, process, ctx');
      npartial', ctx' := AccumulateFinal(partial, npartial', [lbyte], process, process, ctx');
    } else {
      npartial', ctx' := AccumulateByte(partial, npartial', mbyte, nbytes - 1, process, ctx');
    }
  }

  lemma PaddingSplit<T>(n: nat, process: (T, seq<octet>) -> T, ctx: T, held: seq<octet>,
                        first: octet, middle: octet, last: octet, nbytes: nat)
    requires n > 0
    ensures nbytes == 0 ==> held + Padding(first, middle, last, nbytes) == held
    ensures nbytes > 1 ==> var h := Absorb(n, process, process, ctx, held + [first]);
      Absorb(n, process, process, ctx, held + Padding(first, middle, last, nbytes))
      == Absorb(n, process, process, h.ctx, h.pending + (Repeat(middle, nbytes - 2) + [last]))
  {
    if nbytes > 1 {
      var rest := Repeat(middle, nbytes - 2) + [last];
      AbsorbSplit(n, process, process, ctx, held + [first], rest);
      assert (held + [first]) + rest == held + Padding(first, middle, last, nbytes);
    }
  }

  lemma PaddingRest<T>(n: nat, process: (T, seq<octet>) -> T, ctx: T, held: seq<octet>,
                       middle: octet, last: octet, k: nat)
    requires n > 0
    ensures k == 0 ==> Repeat(middle, k) + [last] == [last]
    ensures middle == last ==> Repeat(middle, k) + [last] == Repeat(middle, k + 1)
    ensures var h := Absorb(n, process, process, ctx, held + Repeat(middle, k));
      Absorb(n, process, process, ctx, held + (Repeat(middle, k) + [last]))
      == Absorb(n, process, process, h.ctx, h.pending + [last])
  {
    AbsorbSplit(n, process, process, ctx, held + Repeat(middle, k), [last]);
    assert (held + Repeat(middle, k)) + [last] == held + (Repeat(middle, k) + [last]);
  }

  // ---------------------------------------------------------------- key material

  /** A generator of key material in blocks of `n` octets, and the octets of the last block that
      are not used yet. */
  datatype Supply<T> = Supply(left: seq<octet>, ctx: T)

  ghost predicate Blocks<T(!new)>(n: nat, block: T -> seq<octet>) {
    n > 0 && forall c: T :: |block(c)| == n
  }

  /** The next `k` octets of key material. */
  ghost function Key<T(!new)>(n: nat, block: T -> seq<octet>, next: T -> T, s: Supply<T>, k: nat): (r: seq<octet>)
    requires Blocks(n, block)
    ensures |r| == k
    decreases k - |s.left|
  {
    if k <= |s.left| then s.left[..k]
    else s.left + Key(n, block, next, Supply(block(s.ctx), next(s.ctx)), k - |s.left|)
  }

  /** The supply after `k` octets are used. */
  ghost function Spend<T(!new)>(n: nat, block: T -> seq<octet>, next: T -> T, s: Supply<T>, k: nat): (r: Supply<T>)
    requires Blocks(n, block)
    decreases k - |s.left|
  {
    if k <= |s.left| then Supply(s.left[k..], s.ctx)
    else Spend(n, block, next, Supply(block(s.ctx), next(s.ctx)), k - |s.left|)
  }

  /** Using octets in two goes skips none and uses none twice. */
  lemma {:induction false} KeySplit<T(!new)>(n: nat, block: T -> seq<octet>, next: T -> T, s: Supply<T>, a: nat, b: nat)
    requires Blocks(n, block)
    ensures Key(n, block, next, s, a) + Key(n, block, next, Spend(n, block, next, s, a), b)
         == Key(n, block, next, s, a + b)
    ensures Spend(n, block, next, Spend(n, block, next, s, a), b) == Spend(n, block, next, s, a + b)
    decreases a - |s.left|
  {
    if a <= |s.left| {
      var t := Supply(s.left[a..], s.ctx);
      if a + b <= |s.left| {
        assert s.left[..a] + t.left[..b] == s.left[..a + b];
      } else {
        KeyFrom(n, block, next, s.left[..a], t, b);
        assert s.left[..a] + t.left == s.left;
      }
    } else {
      var t := Supply(block(s.ctx), next(s.ctx));
      KeySplit(n, block, next, t, a - |s.left|, b);
      KeyAssoc(s.left, Key(n, block, next, t, a - |s.left|), Key(n, block, next, Spend(n, block, next, s, a), b));
    }
  }

  lemma KeyAssoc(a: seq<octet>, b: seq<octet>, c: seq<octet>)
    ensures a + b + c == a + (b + c)
  {
  }

  lemma KeyFrom<T(!new)>(n: nat, block: T -> seq<octet>, next: T -> T, front: seq<octet>, t: Supply<T>, b: nat)
    requires Blocks(n, block) && b > |t.left|
    ensures front + Key(n, block, next, t, b)
         == (front + t.left) + Key(n, block, next, Supply(block(t.ctx), next(t.ctx)), b - |t.left|)
  {
    KeyAssoc(front, t.left, Key(n, block, next, Supply(block(t.ctx), next(t.ctx)), b - |t.left|));
  }

  /** `xor_bb` of part of the input with octets at hand. */
  method XorPart(inp: seq<octet>, outp: array<octet>, done: nat, key: seq<octet>)
    requires done + |key| <= |inp| <= outp.Length
    modifies outp
    ensures outp[..done + |key|] == old(outp[..done]) + Xor(inp[done..done + |key|], key)
    ensures outp[|inp|..] == old(outp[|inp|..])
  {
    forall i | 0 <= i < |key| {
      outp[done + i] := inp[done + i] ^ key[i];
    }
    assert outp[..done] == old(outp[..done]);
    assert outp[done..done + |key|] == Xor(inp[done..done + |key|], key);
    assert outp[..done + |key|] == outp[..done] + outp[done..done + |key|];
  }

  lemma UseLeft<T(!new)>(n: nat, block: T -> seq<octet>, next: T -> T, s: Supply<T>, left: seq<octet>, ctx: T, taken: nat)
    requires Blocks(n, block) && 0 < taken <= |left|
    requires if s.left == [] then left == block(s.ctx) && ctx == next(s.ctx) else left == s.left && ctx == s.ctx
    ensures Key(n, block, next, s, taken) == left[..taken]
    ensures Spend(n, block, next, s, taken) == Supply(left[taken..], ctx)
  {
    if s.left == [] {
      assert [] + left[..taken] == left[..taken];
    }
  }

  /** One round of `cf_blockwise_xor`: refills the buffer when it is used up, then spends up to
      `want` octets of it. */
  method XorRound<T(!new)>(partial: array<octet>, npartial: nat, want: nat, block: T -> seq<octet>, next: T -> T, ctx: T)
    returns (npartial': nat, ctx': T, key: seq<octet>)
    requires Blocks(partial.Length, block) && npartial < partial.Length && want > 0
    modifies partial
    ensures npartial' < partial.Length && 0 < |key| <= want
    ensures var n, s := partial.Length, Supply(old(partial[partial.Length - npartial..]), ctx);
      && Supply(partial[n - npartial'..], ctx') == Spend(n, block, next, s, |key|)
      && key == Key(n, block, next, s, |key|)
  {
    var nblock := partial.Length;
    npartial', ctx' := npartial, ctx;
    ghost var s := Supply(partial[nblock - npartial..], ctx);
    if npartial' == 0 {
      Memcpy(partial, 0, block(ctx'));
      assert partial[..] == block(ctx);
      ctx' := next(ctx');
      npartial' := nblock;
    }
    var offset := nblock - npartial';
    var taken := Min(npartial', want);
    UseLeft(nblock, block, next, s, partial[offset..], ctx', taken);
    key := partial[offset..offset + taken];
    assert key == partial[offset..][..taken];
    npartial' := npartial' - taken;
    assert partial[nblock - npartial'..] == partial[offset..][taken..];
  }

  /** `out` is the first `done` octets of the input under the key material of `s`, which left `now`. */
  ghost predicate XoredUpTo<T(!new)>(n: nat, block: T -> seq<octet>, next: T -> T, s: Supply<T>,
                                     inp: seq<octet>, done: nat, now: Supply<T>, out: seq<octet>)
    requires Blocks(n, block)
  {
    && done <= |inp|
    && now == Spend(n, block, next, s, done)
    && out == Xor(inp[..done], Key(n, block, next, s, done))
  }

  lemma XorStep<T(!new)>(n: nat, block: T -> seq<octet>, next: T -> T, s: Supply<T>, inp: seq<octet>, done: nat,
                         now: Supply<T>, out: seq<octet>, taken: nat, later: Supply<T>, key: seq<octet>)
    requires Blocks(n, block) && XoredUpTo(n, block, next, s, inp, done, now, out) && done + taken <= |inp|
    requires later == Spend(n, block, next, now, taken) && key == Key(n, block, next, now, taken)
    ensures XoredUpTo(n, block, next, s, inp, done + taken, later, out + Xor(inp[done..done + taken], key))
  {
    KeySplit(n, block, next, s, done, taken);
    hide Key, Spend;
    XorConcat(inp[..done], inp[done..done + taken], Key(n, block, next, s, done), key);
    assert inp[..done] + inp[done..done + taken] == inp[..done + taken];
  }

  /** A round, from `done` octets of output to `done'`. */
  method XorTurn<T(!new)>(partial: array<octet>, npartial: nat, inp: seq<octet>, outp: array<octet>, done: nat,
                          block: T -> seq<octet>, next: T -> T, ctx: T, ghost s: Supply<T>)
    returns (npartial': nat, ctx': T, done': nat)
    requires Blocks(partial.Length, block) && npartial < partial.Length && partial != outp
    requires done < |inp| <= outp.Length
    requires XoredUpTo(partial.Length, block, next, s, inp, done, Supply(partial[partial.Length - npartial..], ctx), outp[..done])
    modifies partial, outp
    ensures npartial' < partial.Length && done < done' <= |inp|
    ensures XoredUpTo(partial.Length, block, next, s, inp, done', Supply(partial[partial.Length - npartial'..], ctx'), outp[..done'])
    ensures outp[|inp|..] == old(outp[|inp|..])
  {
    hide *;
    ghost var now, out := Supply(partial[partial.Length - npartial..], ctx), outp[..done];
    var key;
    npartial', ctx', key := XorRound(partial, npartial, |inp| - done, block, next, ctx);
    ghost var later := Supply(partial[partial.Length - npartial'..], ctx');
    XorStep(partial.Length, block, next, s, inp, done, now, out, |key|, later, key);
    assert outp[..done] == out;
    XorPart(inp, outp, done, key);
    done' := done + |key|;
  }

  /** `cf_blockwise_xor`. */
  method XorStream<T(!new)>(partial: array<octet>, npartial: nat, inp: seq<octet>, outp: array<octet>,
                            block: T -> seq<octet>, next: T -> T, ctx: T)
    returns (npartial': nat, ctx': T)
    requires Blocks(partial.Length, block) && npartial < partial.Length && partial != outp
    requires |inp| <= outp.Length
    modifies partial, outp
    ensures npartial' < partial.Length
    ensures var s := Supply(old(partial[partial.Length - npartial..]), ctx);
      XoredUpTo(partial.Length, block, next, s, inp, |inp|, Supply(partial[partial.Length - npartial'..], ctx'), outp[..|inp|])
    ensures outp[|inp|..] == old(outp[|inp|..])
  {
    ghost var s := Supply(partial[partial.Length - npartial..], ctx);
    npartial', ctx' := npartial, ctx;
    var done := 0;
    assert XoredUpTo(partial.Length, block, next, s, inp, 0, s, outp[..0]);
    hide *;
    while done < |inp|
      invariant 0 <= done <= |inp| && npartial' < partial.Length
      invariant XoredUpTo(partial.Length, block, next, s, inp, done, Supply(partial[partial.Length - npartial'..], ctx'), outp[..done])
      invariant outp[|inp|..] == old(outp[|inp|..])
    {
      npartial', ctx', done := XorTurn(partial, npartial', inp, outp, done, block, next, ctx', s);
    }
  }
}
