/** Sizes of the rings and of the prefill chunks. */
module KvCaps {
  import opened Basics

  const ALIGN: nat := 256
  const RING_MAX: nat := 8192
  const U32_MAX: nat := 0xffff_ffff

  /** sf37_align_up_u32 */
  function AlignUp(v: nat, align: nat): nat {
    if align == 0 || v % align == 0 then v
    else if v > U32_MAX - (align - v % align) then U32_MAX
    else v + (align - v % align)
  }

  /** The window, no longer than the context. */
  function RawWindow(window: nat, ctx: nat): nat {
    var w := Min(window, ctx);
    if w == 0 then 1 else w
  }

  /** cuda_sliding_cache_cap */
  function SlidingCap(window: nat, ctx: nat, prefillCap: nat): nat {
    if ctx == 0 then 1 else
      var raw := RawWindow(window, ctx);
      var wanted0 := Min(raw + prefillCap, ctx);
      var wanted1 := Min(AlignUp(if wanted0 == 0 then 1 else wanted0, ALIGN), ctx);
      var wanted2 := Min(wanted1, RING_MAX);
      if wanted2 < raw then raw else wanted2
  }

  /** cuda_sliding_cache_prefill_cap */
  function PrefillCap(window: nat, ctx: nat, cap: nat): nat {
    if cap == 0 then 0 else
      var raw := RawWindow(window, ctx);
      if ctx <= raw then cap else if cap <= raw then 1 else cap - raw
  }

  lemma AlignUpGrows(v: nat, align: nat)
    requires v <= U32_MAX
    ensures AlignUp(v, align) >= v
  {
    if align > 0 && v % align != 0 {
      assert v % align < align;
    }
  }

  /** The ring holds the whole context, or a window next to the longest chunk. */
  lemma CapsFit(window: nat, ctx: nat, requested: nat)
    requires 0 < window && 0 < ctx <= U32_MAX
    ensures var cap := SlidingCap(window, ctx, requested); var chunk := PrefillCap(window, ctx, cap);
      && 0 < chunk && 0 < cap <= ctx
      && (cap == ctx || chunk + window <= cap + 1)
  {
    var raw := RawWindow(window, ctx);
    var w0 := Min(raw + requested, ctx);
    AlignUpGrows(w0, ALIGN);
  }
}
