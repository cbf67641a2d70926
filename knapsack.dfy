/**
 * The greedy batcher `_naive_knapsack`: it walks the objects in order and keeps a
 * current batch. An object joins the current batch while the JSON list made of it
 * and the batch stays shorter than the limit and the object is truthy; an object
 * that would make that list reach the limit closes the current batch and opens a new
 * one by itself (raising if its own text is longer than the limit); any other object
 * (a falsy one that fits) is dropped. At the last object a non-empty current batch
 * is emitted.
 */
module Knapsack {
  import opened Wrappers
  import opened Json
  import opened Seqs

  /** `_as_str(obj)`: `json.dumps(obj, ensure_ascii=False)`. */
  function AsStr(obj: Json): string {
    Dumps(obj, false)
  }

  /** `_len(obj)`: the length, in code points, of `_as_str(obj)`. */
  function Len(obj: Json): nat {
    |AsStr(obj)|
  }

  /** `_len` of a list of objects. */
  function ListLen(objs: seq<Json>): nat {
    Len(JArr(objs))
  }

  /** The exception raised for an object longer than the limit. */
  datatype PackError = OversizeObject(obj: Json)

  /** The loop's two lists: the closed batches (`messages`) and the open one (`current_message`). */
  datatype Packing = Packing(messages: seq<seq<Json>>, current: seq<Json>)

  /** One iteration of the loop, without the end-of-input check. */
  function Step(p: Packing, obj: Json, max: int): Result<Packing, PackError> {
    var l := ListLen([obj] + p.current);
    if l < max && Truthy(obj) then Ok(Packing(p.messages, p.current + [obj]))
    else if l >= max then
      if Len(obj) > max then Err(OversizeObject(obj))
      else Ok(Packing(p.messages + [p.current], [obj]))
    else Ok(p)
  }

  /** The loop's state once it has consumed `objs`. */
  function Run(objs: seq<Json>, max: int): Result<Packing, PackError>
    decreases |objs|
  {
    if objs == [] then Ok(Packing([], []))
    else
      match Run(objs[..|objs| - 1], max)
      case Err(e) => Err(e)
      case Ok(p) => Step(p, objs[|objs| - 1], max)
  }

  /** `_naive_knapsack(objects)` with `MAX_MESSAGE_LENGTH == max`. */
  function Pack(objs: seq<Json>, max: int): Result<seq<seq<Json>>, PackError> {
    match Run(objs, max)
    case Err(e) => Err(e)
    case Ok(p) => Ok(if p.current != [] then p.messages + [p.current] else p.messages)
  }

  // ---------------------------------------------------------------------------
  // Reference notions the batches are judged by

  /** The truthy objects of `s`, in order. */
  function TruthyOnly(s: seq<Json>): seq<Json> {
    if s == [] then []
    else TruthyOnly(s[..|s| - 1]) + (if Truthy(s[|s| - 1]) then [s[|s| - 1]] else [])
  }

  /** Lists of two or more objects serialize shorter than the limit; no object is longer than the limit. */
  predicate Bounded(batches: seq<seq<Json>>, max: int) {
    (forall b :: 0 <= b < |batches| && |batches[b]| >= 2 ==> ListLen(batches[b]) < max) &&
    (forall b, j :: 0 <= b < |batches| && 0 <= j < |batches[b]| ==> Len(batches[b][j]) <= max)
  }

  /** Every batch after the first is non-empty, and was closed because its successor's first object did not fit. */
  predicate Closed(batches: seq<seq<Json>>, max: int) {
    forall b :: 0 < b < |batches| ==>
      batches[b] != [] && ListLen([batches[b][0]] + batches[b - 1]) >= max
  }

  /**
   * A falsy object can only stand first in a batch after the first one (it opened
   * that batch by overflow); the first batch holds truthy objects only.
   */
  predicate FalsyOnlyFirst(batches: seq<seq<Json>>) {
    forall b, j :: 0 <= b < |batches| && 0 <= j < |batches[b]| && (b == 0 || j > 0) ==> Truthy(batches[b][j])
  }

  // ---------------------------------------------------------------------------
  // Lengths of serialized lists

  /** Putting an object first or last in a list does not change the list's length, which exceeds the object's by at least 2. */
  lemma ListLenCons(obj: Json, c: seq<Json>)
    ensures ListLen([obj] + c) == ListLen(c + [obj])
    ensures ListLen([obj] + c) >= Len(obj) + 2
    ensures ListLen([obj]) == Len(obj) + 2
  {
    ListLength([obj] + c, false);
    ListLength(c + [obj], false);
    ListLength([obj], false);
    SumLenAppend([obj], c, false);
    SumLenAppend(c, [obj], false);
    assert [obj][..0] == [];
  }

  // ---------------------------------------------------------------------------
  // Helper facts about the reference notions

  lemma TruthyOnlyAppend(s: seq<Json>, x: Json)
    ensures TruthyOnly(s + [x]) == TruthyOnly(s) + (if Truthy(x) then [x] else [])
  {
    assert (s + [x])[..|s|] == s;
  }

  lemma PrefixAndLast(s: seq<Json>)
    requires s != []
    ensures s[..|s| - 1] + [s[|s| - 1]] == s
  {
  }

  // ---------------------------------------------------------------------------
  // The loop invariant

  /** What holds of the loop's lists, read as the closed batches followed by the open one, after a prefix of the input. */
  predicate Inv(p: Packing, prefix: seq<Json>, max: int) {
    var bs := p.messages + [p.current];
    Bounded(bs, max) && Closed(bs, max) && FalsyOnlyFirst(bs) &&
    IsSubseq(Concat(bs), prefix) && TruthyOnly(Concat(bs)) == TruthyOnly(prefix)
  }

  // Appending a fitting truthy object to the open batch.

  lemma AppendBounded(ms: seq<seq<Json>>, c: seq<Json>, obj: Json, max: int)
    requires Bounded(ms + [c], max) && ListLen([obj] + c) < max
    ensures Bounded(ms + [c + [obj]], max)
  {
    var bs, bs' := ms + [c], ms + [c + [obj]];
    ListLenCons(obj, c);
    forall b | 0 <= b < |bs'| && |bs'[b]| >= 2 ensures ListLen(bs'[b]) < max {
      if b < |ms| { assert bs'[b] == bs[b]; }
    }
    forall b, j | 0 <= b < |bs'| && 0 <= j < |bs'[b]| ensures Len(bs'[b][j]) <= max {
      if b < |ms| { assert bs'[b] == bs[b]; }
      else if j < |c| { assert bs'[b][j] == bs[b][j]; }
    }
  }

  lemma AppendClosed(ms: seq<seq<Json>>, c: seq<Json>, obj: Json, max: int)
    requires Closed(ms + [c], max)
    ensures Closed(ms + [c + [obj]], max)
  {
    var bs, bs' := ms + [c], ms + [c + [obj]];
    forall b | 0 < b < |bs'|
      ensures bs'[b] != [] && ListLen([bs'[b][0]] + bs'[b - 1]) >= max
    {
      assert bs'[b - 1] == bs[b - 1];
      if b < |ms| {
        assert bs'[b] == bs[b];
      } else {
        assert bs[b] == c && c != [];
        assert bs'[b][0] == bs[b][0];
      }
    }
  }

  lemma AppendFalsyOnlyFirst(ms: seq<seq<Json>>, c: seq<Json>, obj: Json)
    requires FalsyOnlyFirst(ms + [c]) && Truthy(obj)
    ensures FalsyOnlyFirst(ms + [c + [obj]])
  {
    var bs, bs' := ms + [c], ms + [c + [obj]];
    forall b, j | 0 <= b < |bs'| && 0 <= j < |bs'[b]| && (b == 0 || j > 0) ensures Truthy(bs'[b][j]) {
      if b < |ms| { assert bs'[b] == bs[b]; }
      else if j < |c| { assert bs'[b][j] == bs[b][j]; }
    }
  }

  /** The objects kept so far, after one more is kept. */
  lemma KeepMembership(before: seq<Json>, after: seq<Json>, prefix: seq<Json>, obj: Json)
    requires IsSubseq(before, prefix) && TruthyOnly(before) == TruthyOnly(prefix)
    requires after == before + [obj]
    ensures IsSubseq(after, prefix + [obj]) && TruthyOnly(after) == TruthyOnly(prefix + [obj])
  {
    SubseqAppendBoth(before, prefix, obj);
    TruthyOnlyAppend(prefix, obj);
    TruthyOnlyAppend(before, obj);
  }

  lemma AppendKeepsInv(ms: seq<seq<Json>>, c: seq<Json>, prefix: seq<Json>, obj: Json, max: int)
    requires Inv(Packing(ms, c), prefix, max)
    requires ListLen([obj] + c) < max && Truthy(obj)
    ensures Inv(Packing(ms, c + [obj]), prefix + [obj], max)
  {
    AppendBounded(ms, c, obj, max);
    AppendClosed(ms, c, obj, max);
    AppendFalsyOnlyFirst(ms, c, obj);
    AppendMembership(ms, c, prefix, obj);
  }

  lemma AppendMembership(ms: seq<seq<Json>>, c: seq<Json>, prefix: seq<Json>, obj: Json)
    requires IsSubseq(Concat(ms + [c]), prefix) && TruthyOnly(Concat(ms + [c])) == TruthyOnly(prefix)
    ensures IsSubseq(Concat(ms + [c + [obj]]), prefix + [obj])
    ensures TruthyOnly(Concat(ms + [c + [obj]])) == TruthyOnly(prefix + [obj])
  {
    ConcatSnoc(ms, c);
    ConcatSnoc(ms, c + [obj]);
    KeepMembership(Concat(ms + [c]), Concat(ms + [c + [obj]]), prefix, obj);
  }

  // Closing the open batch and opening one with the object.

  lemma OverflowBounded(bs: seq<seq<Json>>, obj: Json, max: int)
    requires Bounded(bs, max) && Len(obj) <= max
    ensures Bounded(bs + [[obj]], max)
  {
    var bs' := bs + [[obj]];
    forall b | 0 <= b < |bs'| && |bs'[b]| >= 2 ensures ListLen(bs'[b]) < max {
      assert b < |bs| && bs'[b] == bs[b];
    }
    forall b, j | 0 <= b < |bs'| && 0 <= j < |bs'[b]| ensures Len(bs'[b][j]) <= max {
      if b < |bs| { assert bs'[b] == bs[b]; }
    }
  }

  lemma OverflowClosed(bs: seq<seq<Json>>, obj: Json, max: int)
    requires Closed(bs, max) && bs != [] && ListLen([obj] + bs[|bs| - 1]) >= max
    ensures Closed(bs + [[obj]], max)
  {
    var bs' := bs + [[obj]];
    forall b | 0 < b < |bs'| ensures bs'[b] != [] && ListLen([bs'[b][0]] + bs'[b - 1]) >= max {
      assert bs'[b - 1] == bs[b - 1];
      if b < |bs| { assert bs'[b] == bs[b]; }
    }
  }

  lemma OverflowFalsyOnlyFirst(bs: seq<seq<Json>>, obj: Json)
    requires FalsyOnlyFirst(bs) && bs != []
    ensures FalsyOnlyFirst(bs + [[obj]])
  {
    var bs' := bs + [[obj]];
    forall b, j | 0 <= b < |bs'| && 0 <= j < |bs'[b]| && (b == 0 || j > 0) ensures Truthy(bs'[b][j]) {
      assert b < |bs| && bs'[b] == bs[b];
    }
  }

  lemma OverflowMembership(bs: seq<seq<Json>>, prefix: seq<Json>, obj: Json)
    requires IsSubseq(Concat(bs), prefix) && TruthyOnly(Concat(bs)) == TruthyOnly(prefix)
    ensures IsSubseq(Concat(bs + [[obj]]), prefix + [obj])
    ensures TruthyOnly(Concat(bs + [[obj]])) == TruthyOnly(prefix + [obj])
  {
    ConcatSnoc(bs, [obj]);
    KeepMembership(Concat(bs), Concat(bs + [[obj]]), prefix, obj);
  }

  lemma OverflowKeepsInv(ms: seq<seq<Json>>, c: seq<Json>, prefix: seq<Json>, obj: Json, max: int)
    requires Inv(Packing(ms, c), prefix, max)
    requires ListLen([obj] + c) >= max && Len(obj) <= max
    ensures Inv(Packing(ms + [c], [obj]), prefix + [obj], max)
  {
    var bs := ms + [c];
    assert (ms + [c]) + [[obj]] == bs + [[obj]];
    OverflowBounded(bs, obj, max);
    OverflowClosed(bs, obj, max);
    OverflowFalsyOnlyFirst(bs, obj);
    OverflowMembership(bs, prefix, obj);
  }

  lemma StepKeepsInv(p: Packing, prefix: seq<Json>, obj: Json, max: int)
    requires Inv(p, prefix, max)
    requires Step(p, obj, max).Ok?
    ensures Inv(Step(p, obj, max).value, prefix + [obj], max)
  {
    if ListLen([obj] + p.current) < max && Truthy(obj) {
      AppendKeepsInv(p.messages, p.current, prefix, obj, max);
    } else if ListLen([obj] + p.current) >= max {
      OverflowKeepsInv(p.messages, p.current, prefix, obj, max);
    } else {
      SubseqAppendRight(Concat(p.messages + [p.current]), prefix, obj);
      TruthyOnlyAppend(prefix, obj);
    }
  }

  lemma {:induction false} RunInv(objs: seq<Json>, max: int)
    requires Run(objs, max).Ok?
    ensures Inv(Run(objs, max).value, objs, max)
    decreases |objs|
  {
    if objs == [] {
      var bs: seq<seq<Json>> := [[]];
      assert Concat(bs) == [];
    } else {
      var prefix := objs[..|objs| - 1];
      PrefixAndLast(objs);
      RunInv(prefix, max);
      StepKeepsInv(Run(prefix, max).value, prefix, objs[|objs| - 1], max);
    }
  }

  /** Once the loop has failed it stays failed, with the same exception. */
  lemma {:induction false} RunErrExtends(objs: seq<Json>, k: nat, max: int)
    requires k <= |objs| && Run(objs[..k], max).Err?
    ensures Run(objs, max) == Run(objs[..k], max)
    decreases |objs| - k
  {
    if k < |objs| {
      assert objs[..k + 1][..k] == objs[..k];
      RunErrExtends(objs, k + 1, max);
    } else {
      assert objs[..k] == objs;
    }
  }

  /**
   * What the loop does with `objs[i]`, given its lists after `objs[..i]`: a truthy
   * object that fits joins the open batch; an object whose list with the open batch
   * reaches the limit, truthy or not, closes that batch and opens the next one by
   * itself, unless its own text is longer than the limit, which raises; a falsy
   * object that fits leaves the lists as they were.
   */
  lemma RunStep(objs: seq<Json>, i: nat, max: int)
    requires i < |objs| && Run(objs[..i], max).Ok?
    ensures var p, obj := Run(objs[..i], max).value, objs[i];
      var l := ListLen([obj] + p.current);
      (l < max && Truthy(obj) ==> Run(objs[..i + 1], max) == Ok(Packing(p.messages, p.current + [obj]))) &&
      (l >= max && Len(obj) <= max ==> Run(objs[..i + 1], max) == Ok(Packing(p.messages + [p.current], [obj]))) &&
      (l >= max && Len(obj) > max ==> Run(objs[..i + 1], max) == Err(OversizeObject(obj))) &&
      (l < max && !Truthy(obj) ==> Run(objs[..i + 1], max) == Ok(p))
  {
    assert objs[..i + 1][..i] == objs[..i];
  }

  /**
   * The loop's lists `q` grow from `p`: the batches `p` closed stay closed in `q`
   * unchanged, and the batch `p` had open is, in `q`, the next batch (closed or
   * still open) and starts with what it held in `p`.
   */
  predicate Extends(p: Packing, q: Packing) {
    var m := |p.messages|;
    m <= |q.messages| && q.messages[..m] == p.messages &&
    var batch := if m < |q.messages| then q.messages[m] else q.current;
    |p.current| <= |batch| && batch[..|p.current|] == p.current
  }

  lemma StepExtends(p: Packing, q: Packing, obj: Json, max: int)
    requires Extends(p, q) && Step(q, obj, max).Ok?
    ensures Extends(p, Step(q, obj, max).value)
  {
    var q' := Step(q, obj, max).value;
    var m := |p.messages|;
    if q'.messages != q.messages {
      assert q'.messages == q.messages + [q.current];
      assert q'.messages[..m] == q.messages[..m];
      assert q'.messages[m] == if m < |q.messages| then q.messages[m] else q.current;
    } else if q'.current != q.current {
      assert q'.current == q.current + [obj];
      assert q'.current[..|q.current|] == q.current;
    }
  }

  /** The lists after a longer prefix of the input extend the lists after a shorter one. */
  lemma {:induction false} ExtendsRun(objs: seq<Json>, k: nat, j: nat, max: int)
    requires k <= j <= |objs| && Run(objs[..j], max).Ok?
    ensures Run(objs[..k], max).Ok? && Extends(Run(objs[..k], max).value, Run(objs[..j], max).value)
    decreases j - k
  {
    var p := Run(objs[..j], max);
    if k == j {
      assert p.value.messages[..|p.value.messages|] == p.value.messages;
      assert p.value.current[..|p.value.current|] == p.value.current;
    } else {
      assert objs[..j][..j - 1] == objs[..j - 1] && objs[..j][j - 1] == objs[j - 1];
      assert Run(objs[..j - 1], max).Ok?;
      ExtendsRun(objs, k, j - 1, max);
      StepExtends(Run(objs[..k], max).value, Run(objs[..j - 1], max).value, objs[j - 1], max);
    }
  }

  /**
   * An object whose list with the open batch reaches the limit is kept, falsy or
   * not: in the output, the batches before it are the closed batches and the batch
   * that was open when it arrived, and it opens the next batch.
   */
  lemma OverflowKept(objs: seq<Json>, i: nat, max: int)
    requires i < |objs| && Pack(objs, max).Ok?
    requires Run(objs[..i], max).Ok? && ListLen([objs[i]] + Run(objs[..i], max).value.current) >= max
    ensures var p, r := Run(objs[..i], max).value, Pack(objs, max).value;
      var m := |p.messages| + 1;
      m < |r| && r[..m] == p.messages + [p.current] && r[m] != [] && r[m][0] == objs[i]
  {
    var p := Run(objs[..i], max).value;
    assert objs[..|objs|] == objs;
    ExtendsRun(objs, i + 1, |objs|, max);
    RunStep(objs, i, max);
    var q := Run(objs, max).value;
    var m := |p.messages| + 1;
    assert Run(objs[..i + 1], max) == Ok(Packing(p.messages + [p.current], [objs[i]]));
    var r := Pack(objs, max).value;
    if m < |q.messages| {
      assert r[..m] == q.messages[..m] && r[m] == q.messages[m];
    } else {
      assert q.current != [] && r == q.messages + [q.current];
      assert r[..m] == q.messages[..m];
    }
  }

  /** An object the loop drops when no batch is open yet: falsy, with a one-element list that fits. */
  predicate DroppedAtStart(o: Json, max: int) {
    !Truthy(o) && ListLen([o]) < max
  }

  /** While every object is dropped, the loop's lists stay empty. */
  lemma {:induction false} NothingKept(objs: seq<Json>, i: nat, max: int)
    requires i <= |objs| && forall k :: 0 <= k < i ==> DroppedAtStart(objs[k], max)
    ensures Run(objs[..i], max) == Ok(Packing([], []))
    decreases i
  {
    if i > 0 {
      NothingKept(objs, i - 1, max);
      RunStep(objs, i - 1, max);
      assert [objs[i - 1]] + [] == [objs[i - 1]];
    }
  }

  /**
   * The output starts with an empty batch when the first object the loop keeps
   * (every object before it being falsy and fitting) reaches the limit as a
   * one-element list; that object then opens the second batch.
   */
  lemma LeadingEmptyBatch(objs: seq<Json>, i: nat, max: int)
    requires i < |objs| && Pack(objs, max).Ok?
    requires forall k :: 0 <= k < i ==> DroppedAtStart(objs[k], max)
    requires ListLen([objs[i]]) >= max
    ensures var r := Pack(objs, max).value;
      |r| >= 2 && r[0] == [] && r[1] != [] && r[1][0] == objs[i]
  {
    NothingKept(objs, i, max);
    var none: seq<Json> := [];
    assert [objs[i]] + none == [objs[i]];
    OverflowKept(objs, i, max);
    var r := Pack(objs, max).value;
    assert r[..1] == [[]];
    assert r[0] == r[..1][0];
  }

  /** Searching for the first object the loop keeps, when the output starts with an empty batch. */
  lemma {:induction false} EmptyFirstBatchFrom(objs: seq<Json>, i: nat, max: int)
    requires i <= |objs| && Pack(objs, max).Ok?
    requires Pack(objs, max).value != [] && Pack(objs, max).value[0] == []
    requires forall k :: 0 <= k < i ==> DroppedAtStart(objs[k], max)
    ensures exists j :: i <= j < |objs| && (forall k :: 0 <= k < j ==> DroppedAtStart(objs[k], max)) && ListLen([objs[j]]) >= max
    decreases |objs| - i
  {
    NothingKept(objs, i, max);
    if i == |objs| {
      assert false;
    } else if ListLen([objs[i]]) < max {
      if Truthy(objs[i]) {
        RunStep(objs, i, max);
        var none: seq<Json> := [];
        assert [objs[i]] + none == [objs[i]] && none + [objs[i]] == [objs[i]];
        assert Run(objs[..i + 1], max) == Ok(Packing([], [objs[i]]));
        assert objs[..|objs|] == objs;
        ExtendsRun(objs, i + 1, |objs|, max);
        assert false;
      } else {
        EmptyFirstBatchFrom(objs, i + 1, max);
      }
    }
  }

  /**
   * The first batch is empty exactly when the first object the loop keeps reaches
   * the limit as a one-element list, and every object before it is falsy and fits.
   */
  lemma FirstBatchEmpty(objs: seq<Json>, max: int)
    requires Pack(objs, max).Ok?
    ensures var r := Pack(objs, max).value;
      (r != [] && r[0] == []) <==>
      exists i :: 0 <= i < |objs| && (forall k :: 0 <= k < i ==> DroppedAtStart(objs[k], max)) &&
        ListLen([objs[i]]) >= max
  {
    var r := Pack(objs, max).value;
    if r != [] && r[0] == [] {
      EmptyFirstBatchFrom(objs, 0, max);
    }
    if exists i :: 0 <= i < |objs| && (forall k :: 0 <= k < i ==> DroppedAtStart(objs[k], max)) &&
        ListLen([objs[i]]) >= max {
      var i :| 0 <= i < |objs| && (forall k :: 0 <= k < i ==> DroppedAtStart(objs[k], max)) &&
        ListLen([objs[i]]) >= max;
      LeadingEmptyBatch(objs, i, max);
    }
  }

  // ---------------------------------------------------------------------------
  // What `_naive_knapsack` returns

  /** The batches of a successful run: the invariant's lists, or nothing when the open batch is empty. */
  lemma PackIsInvLists(objs: seq<Json>, max: int)
    requires Pack(objs, max).Ok?
    ensures var p := Run(objs, max).value;
      Pack(objs, max).value == if p.current == [] then [] else p.messages + [p.current]
  {
    RunInv(objs, max);
  }

  /**
   * Order and membership: the batches laid end to end are the input with some
   * objects left out, every truthy object is kept, and a falsy object is kept only
   * as the first object of a batch after the first (`OverflowKept` says when).
   */
  lemma PackOrder(objs: seq<Json>, max: int)
    requires Pack(objs, max).Ok?
    ensures var r := Pack(objs, max).value;
      IsSubseq(Concat(r), objs) && TruthyOnly(Concat(r)) == TruthyOnly(objs) && FalsyOnlyFirst(r)
  {
    RunInv(objs, max);
    PackIsInvLists(objs, max);
    var p := Run(objs, max).value;
    if p.current == [] {
      ConcatSnoc(p.messages, p.current);
      assert p.messages == [];
      assert Concat(p.messages + [p.current]) == [];
    }
  }

  /**
   * Size: a batch of two or more objects serializes shorter than the limit; a batch of
   * one object only guarantees that the object's own text is no longer than the limit.
   */
  lemma PackBounded(objs: seq<Json>, max: int)
    requires Pack(objs, max).Ok?
    ensures Bounded(Pack(objs, max).value, max)
  {
    RunInv(objs, max);
    PackIsInvLists(objs, max);
  }

  /**
   * Closing: every batch but the first is non-empty, and a batch was closed only
   * because the list of the next batch's first object and that batch reaches the
   * limit. The last batch is non-empty too.
   */
  lemma PackClosed(objs: seq<Json>, max: int)
    requires Pack(objs, max).Ok?
    ensures var r := Pack(objs, max).value;
      Closed(r, max) && (r != [] ==> r[|r| - 1] != [])
  {
    RunInv(objs, max);
    PackIsInvLists(objs, max);
  }

  /** The batcher raises exactly when some object's own text is longer than the limit. */
  lemma {:induction false} PackFails(objs: seq<Json>, max: int)
    ensures Pack(objs, max).Err? <==> exists i :: 0 <= i < |objs| && Len(objs[i]) > max
    decreases |objs|
  {
    if objs != [] {
      var prefix, last := objs[..|objs| - 1], objs[|objs| - 1];
      PackFails(prefix, max);
      assert forall i :: 0 <= i < |prefix| ==> prefix[i] == objs[i];
      if Run(prefix, max).Ok? {
        ListLenCons(last, Run(prefix, max).value.current);
        assert Pack(prefix, max).Ok?;
      } else {
        assert Pack(prefix, max).Err?;
        var i :| 0 <= i < |prefix| && Len(prefix[i]) > max;
        assert Len(objs[i]) > max;
      }
    }
  }

  /** No input, no batches. */
  lemma PackEmpty(max: int)
    ensures Pack([], max) == Ok([])
  {
  }

  /**
   * The docstring's bound, as far as the code keeps it: the objects of every batch
   * together serialize to at most the limit, and a non-empty batch reaches the limit
   * exactly when it is a single object whose own text is exactly the limit long.
   */
  lemma PackSums(objs: seq<Json>, max: int)
    requires Pack(objs, max).Ok?
    ensures var r := Pack(objs, max).value;
      forall b :: 0 <= b < |r| ==>
        SumLen(r[b], false) <= max &&
        (r[b] != [] ==> (SumLen(r[b], false) >= max <==> |r[b]| == 1 && Len(r[b][0]) == max))
  {
    var r := Pack(objs, max).value;
    PackBounded(objs, max);
    forall b | 0 <= b < |r|
      ensures SumLen(r[b], false) <= max &&
        (r[b] != [] ==> (SumLen(r[b], false) >= max <==> |r[b]| == 1 && Len(r[b][0]) == max))
    {
      ListLength(r[b], false);
      if |r[b]| == 1 {
        assert r[b][..0] == [];
      }
    }
  }

  /**
   * The one-object input: an object that does not exceed the limit but whose
   * one-element list reaches it is batched as an empty batch and then itself.
   */
  lemma LoneOverflow(o: Json, max: int)
    requires Len(o) <= max <= Len(o) + 2
    ensures Pack([o], max) == Ok([[], [o]])
  {
    ListLenCons(o, []);
    assert [o] + [] == [o];
    assert [o][..0] == [];
    assert Run([o], max) == Step(Packing([], []), o, max);
    var p0: Packing := Packing([], []);
    assert ListLen([o] + p0.current) >= max;
    assert !(Len(o) > max);
    var empty: seq<seq<Json>> := [];
    assert empty + [p0.current] == [[]];
    assert Step(p0, o, max) == Ok(Packing([[]], [o]));
    var batches: seq<seq<Json>> := [[]];
    assert batches + [[o]] == [[], [o]];
  }

  /**
   * The docstring promises batches whose objects together serialize shorter than the
   * limit. With the limit 10, the single object {"a": "b"} (exactly 10 characters)
   * gives the batches [] and [{"a": "b"}], and the second does not meet that bound.
   */
  lemma DocstringBoundCounterexample()
    ensures var o := JObj([Member("a", JStr("b"))]);
      Len(o) == 10 && Pack([o], 10) == Ok([[], [o]]) && SumLen([o], false) == 10
  {
    var o := JObj([Member("a", JStr("b"))]);
    assert AsStr(o) == "{\"a\": \"b\"}";
    LoneOverflow(o, 10);
    assert [o][..0] == [];
  }

  /**
   * Three objects {"a": 1}, {"a": 2}, {"a": 3} under the limit 20: each is 8 characters
   * long, so any two make a list of exactly 20 characters, which reaches the limit;
   * every object gets a batch of its own.
   */
  lemma ThreeSmallObjects()
    ensures var o1, o2, o3 := JObj([Member("a", JInt(1))]), JObj([Member("a", JInt(2))]), JObj([Member("a", JInt(3))]);
      Pack([o1, o2, o3], 20) == Ok([[o1], [o2], [o3]])
  {
    var o1, o2, o3 := JObj([Member("a", JInt(1))]), JObj([Member("a", JInt(2))]), JObj([Member("a", JInt(3))]);
    assert AsStr(o1) == "{\"a\": 1}" && AsStr(o2) == "{\"a\": 2}" && AsStr(o3) == "{\"a\": 3}";
    ListLenCons(o1, []);
    PairLen(o2, o1);
    PairLen(o3, o2);
    var objs := [o1, o2, o3];
    assert objs[..1] == [o1] && objs[..2] == [o1, o2] && objs[..3] == objs;
    assert [o1][..0] == [];
    assert [o1, o2][..1] == [o1];
    assert objs[..2][..1] == [o1];
    assert Run([o1], 20) == Ok(Packing([], [o1])) by {
      assert Run([o1], 20) == Step(Packing([], []), o1, 20);
      assert [o1] + [] == [o1];
      var none: seq<Json> := [];
      assert none + [o1] == [o1];
      assert ListLen([o1] + none) == 10 && Truthy(o1);
    }
    assert Run([o1, o2], 20) == Ok(Packing([[o1]], [o2])) by {
      assert Run([o1, o2], 20) == Step(Packing([], [o1]), o2, 20);
      var none: seq<seq<Json>> := [];
      assert none + [[o1]] == [[o1]];
    }
    assert Run(objs, 20) == Ok(Packing([[o1], [o2]], [o3])) by {
      assert objs[..|objs| - 1] == [o1, o2];
      assert Run(objs, 20) == Step(Packing([[o1]], [o2]), o3, 20);
      var first: seq<seq<Json>> := [[o1]];
      assert first + [[o2]] == [[o1], [o2]];
    }
    var two: seq<seq<Json>> := [[o1], [o2]];
    assert two + [[o3]] == [[o1], [o2], [o3]];
  }

  /**
   * Falsy objects: {} after {"a": 1} under the limit 12 makes a list of 14 characters,
   * so it is kept and opens a batch of its own; {} alone under the limit 100 fits
   * and is dropped, leaving no batch at all.
   */
  lemma FalsyExamples()
    ensures var o, e := JObj([Member("a", JInt(1))]), JObj([]);
      Pack([o, e], 12) == Ok([[o], [e]]) && Pack([e], 100) == Ok([])
  {
    var o, e := JObj([Member("a", JInt(1))]), JObj([]);
    assert AsStr(o) == "{\"a\": 1}" && AsStr(e) == "{}";
    ListLenCons(o, []);
    ListLenCons(e, []);
    PairLen(e, o);
    var objs := [o, e];
    assert objs[..1] == [o] && objs[..|objs| - 1] == [o];
    assert [o][..0] == [] && [e][..0] == [];
    assert Run([o], 12) == Ok(Packing([], [o])) by {
      assert Run([o], 12) == Step(Packing([], []), o, 12);
      var none: seq<Json> := [];
      assert [o] + none == [o] && none + [o] == [o];
    }
    assert Run(objs, 12) == Ok(Packing([[o]], [e])) by {
      assert Run(objs, 12) == Step(Packing([], [o]), e, 12);
      var none: seq<seq<Json>> := [];
      assert none + [[o]] == [[o]];
    }
    var one: seq<seq<Json>> := [[o]];
    assert one + [[e]] == [[o], [e]];
    assert Run([e], 100) == Step(Packing([], []), e, 100);
    var none: seq<Json> := [];
    assert [e] + none == [e];
    assert !Truthy(e);
  }

  /** Two objects make a list two characters longer than the object texts and the ", " between them. */
  lemma PairLen(x: Json, y: Json)
    ensures ListLen([x] + [y]) == Len(x) + Len(y) + 4
  {
    assert [x] + [y] == [x, y];
    ListLength([x, y], false);
    assert [x, y][..1] == [x];
    assert [x][..0] == [];
    assert SumLen([x], false) == Len(x);
    assert SumLen([x, y], false) == Len(x) + Len(y);
  }
}
