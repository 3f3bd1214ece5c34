/** `lib/ix.js`: `pipe`, left-to-right application of stages. */
module Ix {

  /** `fn(...f2(f1(v))...)`: the stages applied in order, the last one
      outermost. */
  function Applied<T>(v: T, stages: seq<T -> T>): T
  {
    if |stages| == 0 then v else stages[|stages| - 1](Applied(v, stages[..|stages| - 1]))
  }

  /** `pipe(v, ...stages)`: the loop that shifts the next stage off the
      front and applies it to the current value. With no stages it
      returns `v`; otherwise `fn(...f1(v)...)`. */
  method Pipe<T>(v: T, stages: seq<T -> T>) returns (val: T)
    ensures |stages| == 0 ==> val == v
    ensures val == Applied(v, stages)
  {
    val := v;
    var rest := stages;
    while |rest| > 0
      invariant |rest| <= |stages|
      invariant rest == stages[|stages| - |rest|..]
      invariant val == Applied(v, stages[..|stages| - |rest|])
    {
      var k := |stages| - |rest|;
      assert stages[..k + 1][..k] == stages[..k];
      val := rest[0](val);
      rest := rest[1..];
    }
    assert stages[..|stages|] == stages;
  }

  /** Piping through `fs ++ gs` pipes through `fs`, then through `gs`. */
  lemma {:induction false} AppliedAppend<T>(v: T, fs: seq<T -> T>, gs: seq<T -> T>)
    ensures Applied(v, fs + gs) == Applied(Applied(v, fs), gs)
    decreases |gs|
  {
    if |gs| == 0 {
      assert fs + gs == fs;
    } else {
      var n := |gs| - 1;
      assert (fs + gs)[..|fs| + n] == fs + gs[..n];
      AppliedAppend(v, fs, gs[..n]);
    }
  }

  /** `pipe(v, f, ...rest)` is `pipe(f(v), ...rest)`. */
  lemma AppliedCons<T>(v: T, f: T -> T, rest: seq<T -> T>)
    ensures Applied(v, [f] + rest) == Applied(f(v), rest)
  {
    AppliedAppend(v, [f], rest);
    assert [f][..0] == [];
  }
}
