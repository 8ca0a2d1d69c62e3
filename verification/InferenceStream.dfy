/**
 Assembly of a streamed inference response (assemble_inference_stream in
 protocol/inference_wire.py) under the chunk contract of
 protocol/schemas/inference_stream_chunk_payload.schema.json.
 */
module InferenceStream {
  import opened Basics

  datatype UsageField =
    | PromptTokens | CompletionTokens | TotalTokens | CpuMilliseconds | GpuMilliseconds
    | VramByteSeconds | NetworkBytes | ArtifactBytes | ExternalCostMicros

  type Usage = map<UsageField, int>

  datatype Binding = Binding(session: string, turn: string, lease: string, node: string, model: string)

  /** One element of a chunk's tool_calls. */
  datatype Fragment = Fragment(
    index: int,
    id: Option<string>,
    kind: Option<string>,
    name: Option<string>,
    arguments: Option<string>)

  datatype Chunk = Chunk(
    version: int,
    binding: Binding,
    delta: string,
    done: bool,
    finishReason: Option<string>,
    fragments: seq<Fragment>,
    usage: Option<Usage>)

  datatype Call = Call(id: string, kind: string, name: string, arguments: string)

  datatype Response = Response(output: string, toolCalls: Option<seq<Call>>, usage: Option<Usage>)

  datatype Problem = ContractViolated | BindingChanged | NoFinalChunk

  // ------------------------------------------------- the chunk contract

  const INDEXES := 32

  predicate Bounded(s: Option<string>, low: nat, high: nat) {
    s.Some? ==> low <= |s.value| <= high
  }

  predicate FragmentAllowed(f: Fragment) {
    && 0 <= f.index < 32
    && Bounded(f.id, 1, 160)
    && (f.kind.Some? ==> f.kind.value == "function")
    && Bounded(f.name, 0, 256)
    && Bounded(f.arguments, 0, 131072)
  }

  predicate UsageAllowed(u: Usage) {
    forall k :: k in u ==> u[k] >= 0
  }

  predicate BindingAllowed(b: Binding) {
    && 1 <= |b.session| <= 160 && 1 <= |b.turn| <= 160 && 1 <= |b.lease| <= 160
    && 1 <= |b.node| <= 160 && 1 <= |b.model| <= 256
  }

  predicate ChunkAllowed(c: Chunk) {
    && c.version == 1
    && BindingAllowed(c.binding)
    && |c.delta| <= 65536
    && Bounded(c.finishReason, 0, 64)
    && |c.fragments| <= 32
    && (forall j :: 0 <= j < |c.fragments| ==> FragmentAllowed(c.fragments[j]))
    && (c.usage.Some? ==> UsageAllowed(c.usage.value))
  }

  // ------------------------------------- what a stream says, by projection

  /** Everything a run of chunks has said: the text, all call fragments in arrival order
      whichever chunk brought them, the latest usage, and whether a final chunk was among them. */
  datatype Said = Said(text: string, fragments: seq<Fragment>, usage: Option<Usage>, done: bool)

  function Then(a: Said, b: Said): Said {
    Said(a.text + b.text, a.fragments + b.fragments, if b.usage.Some? then b.usage else a.usage, a.done || b.done)
  }

  function SaidBy(c: Chunk): Said {
    Said(c.delta, c.fragments, c.usage, c.done)
  }

  function Heard(chunks: seq<Chunk>): Said {
    if chunks == [] then Said("", [], None, false)
    else Then(Heard(chunks[..|chunks| - 1]), SaidBy(chunks[|chunks| - 1]))
  }

  /** The fragments of one call index, in arrival order. */
  function Own(fs: seq<Fragment>, index: int): seq<Fragment> {
    if fs == [] then []
    else
      var before := Own(fs[..|fs| - 1], index);
      var last := fs[|fs| - 1];
      if last.index == index then before + [last] else before
  }

  /** What fragments carry: names and arguments joined in arrival order, and the latest id. */
  datatype Content = Content(id: Option<string>, name: string, arguments: string)

  function Plus(a: Content, b: Content): Content {
    Content(if b.id.Some? then b.id else a.id, a.name + b.name, a.arguments + b.arguments)
  }

  function Piece(s: Option<string>): string {
    if s.Some? then s.value else ""
  }

  function Carried(f: Fragment): Content {
    Content(f.id, Piece(f.name), Piece(f.arguments))
  }

  function Joined(fs: seq<Fragment>): Content {
    if fs == [] then Content(None, "", "") else Plus(Joined(fs[..|fs| - 1]), Carried(fs[|fs| - 1]))
  }

  function ToCall(c: Content): Call {
    Call(Piece(c.id), "function", c.name, c.arguments)
  }

  /** The call of an index with the fragments `own`; an index without fragments has none. */
  function CallOf(own: seq<Fragment>): seq<Call> {
    if own == [] then [] else [ToCall(Joined(own))]
  }

  /** The calls from `index` on, in ascending order of index: each is what its own fragments carry. */
  function CallsFrom(fs: seq<Fragment>, index: nat): seq<Call>
    decreases INDEXES - index, fs
  {
    if index >= INDEXES then []
    else CallOf(Own(fs, index)) + CallsFrom(fs, index + 1)
  }

  /** What is wrong with one chunk of a stream bound to `binding`. */
  function ChunkFault(c: Chunk, binding: Binding): Option<Problem> {
    if !ChunkAllowed(c) then Some(ContractViolated)
    else if c.binding != binding then Some(BindingChanged)
    else None
  }

  /** The first chunk that breaks the contract or leaves the first chunk's binding. */
  function Fault(chunks: seq<Chunk>): Option<Problem> {
    if chunks == [] then None
    else
      var before := Fault(chunks[..|chunks| - 1]);
      if before.Some? then before else ChunkFault(chunks[|chunks| - 1], chunks[0].binding)
  }

  /** The response for what was said. */
  function Answer(said: Said): Response {
    Response(said.text, if said.fragments == [] then None else Some(CallsFrom(said.fragments, 0)), said.usage)
  }

  /** What a stream means. */
  function Assembled(chunks: seq<Chunk>): Result<Response, Problem> {
    var fault := Fault(chunks);
    if fault.Some? then Err(fault.value)
    else if !Heard(chunks).done then Err(NoFinalChunk)
    else Ok(Answer(Heard(chunks)))
  }

  // ----------------------------------------------------------- the loop

  /** What the dictionary of calls holds after the fragments `fs`. */
  ghost predicate Gathered(calls: map<int, Call>, fs: seq<Fragment>) {
    forall i: int :: GatheredAt(calls, fs, i)
  }

  ghost predicate GatheredAt(calls: map<int, Call>, fs: seq<Fragment>, i: int) {
    && (i in calls <==> Own(fs, i) != [])
    && (i in calls ==> calls[i] == ToCall(Joined(Own(fs, i))))
  }

  lemma OwnOfSnoc(fs: seq<Fragment>, f: Fragment, i: int)
    ensures Own(fs + [f], i) == if f.index == i then Own(fs, i) + [f] else Own(fs, i)
  {
  }

  lemma JoinedSnoc(fs: seq<Fragment>, f: Fragment)
    ensures Joined(fs + [f]) == Plus(Joined(fs), Carried(f))
  {
  }

  /** What one fragment adds to a call. */
  method Extend(call: Call, item: Fragment, ghost own: Content) returns (r: Call)
    requires call == ToCall(own)
    ensures r == ToCall(Plus(own, Carried(item)))
  {
    r := call;
    if item.id.Some? {
      r := r.(id := item.id.value);
    }
    if item.kind.Some? {
      r := r.(kind := "function");
    }
    if item.name.Some? {
      r := r.(name := r.name + item.name.value);
    }
    if item.arguments.Some? {
      r := r.(arguments := r.arguments + item.arguments.value);
    }
  }

  lemma GatheredSnoc(calls: map<int, Call>, fs: seq<Fragment>, f: Fragment, call: Call)
    requires Gathered(calls, fs) && call == ToCall(Plus(Joined(Own(fs, f.index)), Carried(f)))
    ensures Gathered(calls[f.index := call], fs + [f])
  {
    JoinedSnoc(Own(fs, f.index), f);
    var r := calls[f.index := call];
    forall i: int
      ensures GatheredAt(r, fs + [f], i)
    {
      assert GatheredAt(calls, fs, i);
      OwnOfSnoc(fs, f, i);
    }
  }

  /** One pass of the inner loop. */
  method Absorb(calls: map<int, Call>, item: Fragment, ghost fs: seq<Fragment>) returns (r: map<int, Call>)
    requires Gathered(calls, fs)
    ensures Gathered(r, fs + [item])
  {
    var index := item.index;
    assert GatheredAt(calls, fs, index);
    var current := if index in calls then calls[index] else Call("", "function", "", "");
    current := Extend(current, item, Joined(Own(fs, index)));
    r := calls[index := current];
    GatheredSnoc(calls, fs, item, current);
  }

  method AbsorbAll(calls: map<int, Call>, items: seq<Fragment>, ghost fs: seq<Fragment>) returns (r: map<int, Call>)
    requires Gathered(calls, fs)
    ensures Gathered(r, fs + items)
  {
    r := calls;
    assert fs + items[..0] == fs;
    for j := 0 to |items|
      invariant Gathered(r, fs + items[..j])
    {
      r := Absorb(r, items[j], fs + items[..j]);
      assert fs + items[..j] + [items[j]] == fs + items[..j + 1];
    }
    assert items[..|items|] == items;
  }

  lemma GatheredEmpty(calls: map<int, Call>, fs: seq<Fragment>)
    requires Gathered(calls, fs)
    ensures calls == map[] <==> fs == []
  {
    if fs != [] {
      var i := fs[|fs| - 1].index;
      assert GatheredAt(calls, fs, i) && i in calls;
    } else {
      forall i: int
        ensures i !in calls
      {
        assert GatheredAt(calls, fs, i);
      }
    }
  }

  lemma CallsFromStep(calls: map<int, Call>, fs: seq<Fragment>, index: nat)
    requires Gathered(calls, fs) && index < INDEXES
    ensures CallsFrom(fs, index) ==
      (if index in calls then [calls[index]] else []) + CallsFrom(fs, index + 1)
  {
    assert GatheredAt(calls, fs, index);
  }

  /** The calls in ascending order of their indexes, which the contract keeps below 32. */
  method InOrder(calls: map<int, Call>, ghost fs: seq<Fragment>) returns (r: seq<Call>)
    requires Gathered(calls, fs)
    ensures r == CallsFrom(fs, 0)
  {
    r := [];
    var index := INDEXES;
    while index > 0
      invariant 0 <= index <= INDEXES
      invariant r == CallsFrom(fs, index)
    {
      index := index - 1;
      CallsFromStep(calls, fs, index);
      if index in calls {
        r := [calls[index]] + r;
      }
    }
  }

  lemma {:induction false} FaultPersists(chunks: seq<Chunk>, k: nat)
    requires k <= |chunks| && Fault(chunks[..k]).Some?
    ensures Fault(chunks) == Fault(chunks[..k])
    decreases |chunks|
  {
    if k == |chunks| {
      assert chunks[..k] == chunks;
    } else {
      var front := chunks[..|chunks| - 1];
      assert front[..k] == chunks[..k];
      FaultPersists(front, k);
    }
  }

  lemma HeardSnoc(chunks: seq<Chunk>, c: Chunk)
    ensures Heard(chunks + [c]) == Then(Heard(chunks), SaidBy(c))
    ensures var binding := if chunks == [] then c.binding else chunks[0].binding;
            Fault(chunks + [c]) == if Fault(chunks).Some? then Fault(chunks) else ChunkFault(c, binding)
  {
  }

  /** The next chunk is refused or, if it keeps contract and binding, heard. */
  lemma NextChunk(chunks: seq<Chunk>, k: nat)
    requires k < |chunks| && Fault(chunks[..k]) == None
    ensures Heard(chunks[..k + 1]) == Then(Heard(chunks[..k]), SaidBy(chunks[k]))
    ensures Fault(chunks[..k + 1]) == ChunkFault(chunks[k], chunks[0].binding)
  {
    var front, next := chunks[..k], chunks[..k + 1];
    assert next == front + [chunks[k]];
    assert front != [] ==> front[0] == chunks[0];
    HeardSnoc(front, chunks[k]);
  }

  method ValidateFragment(f: Fragment) returns (ok: bool)
    ensures ok <==> FragmentAllowed(f)
  {
    if f.index < 0 || f.index >= INDEXES { return false; }
    if f.id.Some? && (f.id.value == "" || |f.id.value| > 160) { return false; }
    if f.kind.Some? && f.kind.value != "function" { return false; }
    if f.name.Some? && |f.name.value| > 256 { return false; }
    if f.arguments.Some? && |f.arguments.value| > 131072 { return false; }
    return true;
  }

  /** Validation of one chunk against the schema. */
  method ValidateChunk(c: Chunk) returns (ok: bool)
    ensures ok <==> ChunkAllowed(c)
  {
    var b := c.binding;
    if c.version != 1 || |c.delta| > 65536 || |c.fragments| > 32 { return false; }
    if |b.session| > 160 || |b.turn| > 160 || |b.lease| > 160 || |b.node| > 160 || |b.model| > 256 { return false; }
    if b.session == "" || b.turn == "" || b.lease == "" || b.node == "" || b.model == "" { return false; }
    if c.finishReason.Some? && |c.finishReason.value| > 64 { return false; }
    if c.usage.Some? && exists k :: k in c.usage.value && c.usage.value[k] < 0 { return false; }
    for j := 0 to |c.fragments|
      invariant forall i :: 0 <= i < j ==> FragmentAllowed(c.fragments[i])
    {
      var good := ValidateFragment(c.fragments[j]);
      if !good { return false; }
    }
    return true;
  }

  /** The assembly loop computes the meaning of the stream, including which refusal comes first. */
  method AssembleInferenceStream(chunks: seq<Chunk>) returns (r: Result<Response, Problem>)
    ensures r == Assembled(chunks)
  {
    var output := "";
    var calls: map<int, Call> := map[];
    var usage: Option<Usage> := None;
    var sawDone := false;
    var binding: Option<Binding> := None;
    ghost var said := Said("", [], None, false);
    var k := 0;
    while k < |chunks|
      invariant 0 <= k <= |chunks|
      invariant Fault(chunks[..k]) == None && Heard(chunks[..k]) == said
      invariant binding == if k == 0 then None else Some(chunks[0].binding)
      invariant said.text == output && said.usage == usage && said.done == sawDone
      invariant Gathered(calls, said.fragments)
    {
      var chunk := chunks[k];
      NextChunk(chunks, k);
      var allowed := ValidateChunk(chunk);
      if !allowed {
        FaultPersists(chunks, k + 1);
        return Err(ContractViolated);
      }
      if binding.None? {
        binding := Some(chunk.binding);
      } else if chunk.binding != binding.value {
        FaultPersists(chunks, k + 1);
        return Err(BindingChanged);
      }
      output := output + chunk.delta;
      if chunk.usage.Some? {
        usage := chunk.usage;
      }
      calls := AbsorbAll(calls, chunk.fragments, said.fragments);
      if chunk.done {
        sawDone := true;
      }
      said := Then(said, SaidBy(chunk));
      k := k + 1;
    }
    assert chunks[..k] == chunks;
    if !sawDone {
      return Err(NoFinalChunk);
    }
    var ordered := InOrder(calls, said.fragments);
    GatheredEmpty(calls, said.fragments);
    r := Ok(Response(output, if calls == map[] then None else Some(ordered), usage));
  }

  // ------------------------------------------- fragmentation is invisible

  function Flatten(parts: seq<seq<Fragment>>): seq<Fragment> {
    if parts == [] then [] else Flatten(parts[..|parts| - 1]) + parts[|parts| - 1]
  }

  /** `pieces` carries what `f` carries: its name and arguments cut anywhere into consecutive
      pieces, its id on any of them, all under the same index. */
  ghost predicate IsCut(f: Fragment, pieces: seq<Fragment>) {
    && pieces != []
    && (forall k :: 0 <= k < |pieces| ==> pieces[k].index == f.index)
    && Joined(pieces) == Carried(f)
  }

  lemma {:induction false} OwnConcat(a: seq<Fragment>, b: seq<Fragment>, i: int)
    ensures Own(a + b, i) == Own(a, i) + Own(b, i)
  {
    if b == [] {
      assert a + b == a;
    } else {
      var front, last := b[..|b| - 1], b[|b| - 1];
      assert a + b == (a + front) + [last] && b == front + [last];
      OwnOfSnoc(a + front, last, i);
      OwnOfSnoc(front, last, i);
      OwnConcat(a, front, i);
    }
  }

  lemma PlusAssociates(a: Content, b: Content, c: Content)
    ensures Plus(Plus(a, b), c) == Plus(a, Plus(b, c))
  {
  }

  lemma PlusNothing(a: Content)
    ensures Plus(a, Content(None, "", "")) == a
    ensures Plus(Content(None, "", ""), a) == a
  {
  }

  lemma {:induction false} JoinedConcat(a: seq<Fragment>, b: seq<Fragment>)
    ensures Joined(a + b) == Plus(Joined(a), Joined(b))
  {
    if b == [] {
      assert a + b == a;
      PlusNothing(Joined(a));
    } else {
      var front, last := b[..|b| - 1], b[|b| - 1];
      assert a + b == (a + front) + [last];
      JoinedSnoc(a + front, last);
      JoinedConcat(a, front);
      PlusAssociates(Joined(a), Joined(front), Carried(last));
    }
  }

  lemma {:induction false} OwnOfUniform(fs: seq<Fragment>, i: int, index: int)
    requires forall k :: 0 <= k < |fs| ==> fs[k].index == index
    ensures Own(fs, i) == if i == index then fs else []
  {
    if fs != [] {
      OwnOfUniform(fs[..|fs| - 1], i, index);
      assert fs == fs[..|fs| - 1] + [fs[|fs| - 1]];
    }
  }

  ghost predicate SameCall(fs: seq<Fragment>, gs: seq<Fragment>, i: int) {
    (Own(fs, i) == [] <==> Own(gs, i) == []) && Joined(Own(fs, i)) == Joined(Own(gs, i))
  }

  lemma OneCut(fs: seq<Fragment>, gs: seq<Fragment>, f: Fragment, pieces: seq<Fragment>, i: int)
    requires SameCall(fs, gs, i) && IsCut(f, pieces)
    ensures SameCall(fs + [f], gs + pieces, i)
  {
    OwnOfSnoc(fs, f, i);
    OwnConcat(gs, pieces, i);
    OwnOfUniform(pieces, i, f.index);
    if i == f.index {
      JoinedSnoc(Own(fs, i), f);
      JoinedConcat(Own(gs, i), pieces);
    } else {
      assert Own(gs, i) + [] == Own(gs, i);
    }
  }

  lemma OneMoreCut(fs: seq<Fragment>, parts: seq<seq<Fragment>>, f: Fragment, pieces: seq<Fragment>, i: int)
    requires SameCall(fs, Flatten(parts), i) && IsCut(f, pieces)
    ensures SameCall(fs + [f], Flatten(parts + [pieces]), i)
  {
    assert (parts + [pieces])[..|parts|] == parts;
    OneCut(fs, Flatten(parts), f, pieces, i);
  }

  ghost predicate AreCuts(fs: seq<Fragment>, parts: seq<seq<Fragment>>) {
    |parts| == |fs| && forall k :: 0 <= k < |fs| ==> IsCut(fs[k], parts[k])
  }

  lemma FewerCuts(fs: seq<Fragment>, parts: seq<seq<Fragment>>, n: nat)
    requires AreCuts(fs, parts) && n <= |fs|
    ensures AreCuts(fs[..n], parts[..n])
  {
  }

  lemma {:induction false} CutsKeepCalls(fs: seq<Fragment>, parts: seq<seq<Fragment>>, i: int)
    requires AreCuts(fs, parts)
    ensures SameCall(fs, Flatten(parts), i)
    decreases |fs|
  {
    if fs != [] {
      var n := |fs| - 1;
      Unsnoc(fs);
      Unsnoc(parts);
      FewerCuts(fs, parts, n);
      CutsKeepCalls(fs[..n], parts[..n], i);
      OneMoreCut(fs[..n], parts[..n], fs[n], parts[n], i);
    }
  }

  lemma {:induction false} SameCalls(fs: seq<Fragment>, gs: seq<Fragment>, index: nat)
    requires forall i: int :: SameCall(fs, gs, i)
    ensures CallsFrom(fs, index) == CallsFrom(gs, index)
    decreases INDEXES - index
  {
    if index < INDEXES {
      assert SameCall(fs, gs, index);
      SameCalls(fs, gs, index + 1);
    }
  }

  lemma SameEmptiness(fs: seq<Fragment>, gs: seq<Fragment>)
    requires forall i: int :: SameCall(fs, gs, i)
    ensures fs == [] <==> gs == []
  {
    if fs != [] {
      assert SameCall(fs, gs, fs[|fs| - 1].index);
    }
    if gs != [] {
      assert SameCall(fs, gs, gs[|gs| - 1].index);
    }
  }

  /** Cut the text anywhere, cut every call fragment into any pieces, spread the pieces over any
      chunks and interleave different call indexes in any way: the assembled response is the same. */
  lemma FragmentationIsInvisible(a: seq<Chunk>, b: seq<Chunk>, parts: seq<seq<Fragment>>)
    requires Assembled(a).Ok? && Assembled(b).Ok?
    requires Heard(a).text == Heard(b).text && Heard(a).usage == Heard(b).usage
    requires AreCuts(Heard(a).fragments, parts)
    requires forall i: int :: Own(Heard(b).fragments, i) == Own(Flatten(parts), i)
    ensures Assembled(a) == Assembled(b)
  {
    var fs, gs := Heard(a).fragments, Heard(b).fragments;
    forall i: int
      ensures SameCall(fs, gs, i)
    {
      CutsKeepCalls(fs, parts, i);
    }
    SameCalls(fs, gs, 0);
    SameEmptiness(fs, gs);
  }

  /** Two neighbouring fragments of different calls may arrive in either order. */
  lemma NeighboursCommute(xs: seq<Fragment>, f: Fragment, g: Fragment, ys: seq<Fragment>, i: int)
    requires f.index != g.index
    ensures Own(xs + [f, g] + ys, i) == Own(xs + [g, f] + ys, i)
  {
    OwnConcat(xs + [f, g], ys, i);
    OwnConcat(xs + [g, f], ys, i);
    assert xs + [f, g] == (xs + [f]) + [g] && xs + [g, f] == (xs + [g]) + [f];
    OwnOfSnoc(xs + [f], g, i);
    OwnOfSnoc(xs, f, i);
    OwnOfSnoc(xs + [g], f, i);
    OwnOfSnoc(xs, g, i);
  }

  lemma JoinedOne(f: Fragment)
    ensures Joined([f]) == Carried(f)
  {
  }

  /** A fragment cut in two anywhere in its name and its arguments. */
  lemma CutInTwo(f: Fragment, head: Fragment, rest: Fragment)
    requires head.index == rest.index == f.index && head.id == f.id && rest.id == None
    requires Piece(head.name) + Piece(rest.name) == Piece(f.name)
    requires Piece(head.arguments) + Piece(rest.arguments) == Piece(f.arguments)
    ensures IsCut(f, [head, rest])
  {
    assert [head] + [rest] == [head, rest];
    JoinedSnoc([head], rest);
    JoinedOne(head);
  }

  // ----------------------------------------------- one chunk cut in two

  lemma ThenAssociates(a: Said, b: Said, c: Said)
    ensures Then(Then(a, b), c) == Then(a, Then(b, c))
  {
  }

  lemma {:induction false} SameSuffix(a: seq<Chunk>, b: seq<Chunk>, after: seq<Chunk>)
    requires a != [] && b != [] && a[0].binding == b[0].binding
    requires Heard(a) == Heard(b) && Fault(a) == Fault(b)
    ensures Heard(a + after) == Heard(b + after) && Fault(a + after) == Fault(b + after)
  {
    if after == [] {
      assert a + after == a && b + after == b;
    } else {
      var front, last := after[..|after| - 1], after[|after| - 1];
      SameSuffix(a, b, front);
      AppendUnsnoc(a, after);
      AppendUnsnoc(b, after);
      HeardSnoc(a + front, last);
      HeardSnoc(b + front, last);
    }
  }

  /** A chunk may be sent as two, part of its text and fragments first and the rest after it:
      the answer is the same, whether it is a response or a refusal. */
  lemma ChunkCutInTwo(before: seq<Chunk>, c: Chunk, after: seq<Chunk>, first: Chunk, second: Chunk)
    requires ChunkAllowed(c) && ChunkAllowed(first) && ChunkAllowed(second)
    requires first.binding == second.binding == c.binding
    requires Then(SaidBy(first), SaidBy(second)) == SaidBy(c)
    ensures Assembled(before + [first] + [second] + after) == Assembled(before + [c] + after)
  {
    HeardSnoc(before, c);
    HeardSnoc(before, first);
    HeardSnoc(before + [first], second);
    ThenAssociates(Heard(before), SaidBy(first), SaidBy(second));
    SameSuffix(before + [first] + [second], before + [c], after);
  }

  /** A stream has no fault exactly when every chunk keeps the contract and the first binding. */
  lemma {:induction false} NoFaultIff(chunks: seq<Chunk>)
    ensures Fault(chunks) == None <==>
      forall k :: 0 <= k < |chunks| ==> ChunkAllowed(chunks[k]) && chunks[k].binding == chunks[0].binding
  {
    if chunks != [] {
      NoFaultIff(chunks[..|chunks| - 1]);
    }
  }

  lemma {:induction false} DoneIff(chunks: seq<Chunk>)
    ensures Heard(chunks).done <==> exists k :: 0 <= k < |chunks| && chunks[k].done
  {
    if chunks != [] {
      DoneIff(chunks[..|chunks| - 1]);
    }
  }

  /** The answer is a response exactly when every chunk keeps the contract and the first binding
      and one of them is final. */
  lemma AcceptedIff(chunks: seq<Chunk>)
    ensures Assembled(chunks).Ok? <==>
      && (forall k :: 0 <= k < |chunks| ==> ChunkAllowed(chunks[k]) && chunks[k].binding == chunks[0].binding)
      && (exists k :: 0 <= k < |chunks| && chunks[k].done)
  {
    NoFaultIff(chunks);
    DoneIff(chunks);
  }

  // ------------------------------------------------- where each call ends up

  /** How many call indexes in `low..high` have fragments. */
  function Present(fs: seq<Fragment>, low: nat, high: nat): nat
    requires low <= high
    decreases high - low, fs
  {
    if low == high then 0 else |CallOf(Own(fs, low))| + Present(fs, low + 1, high)
  }

  predicate StandsAt(call: Call, calls: seq<Call>, p: nat) {
    p < |calls| && calls[p] == call
  }

  lemma ShiftedBy(call: Call, here: seq<Call>, calls: seq<Call>, p: nat)
    requires StandsAt(call, calls, p)
    ensures StandsAt(call, here + calls, |here| + p)
  {
  }

  lemma {:induction false} CallPosition(fs: seq<Fragment>, low: nat, i: nat)
    requires low <= i < INDEXES && Own(fs, i) != []
    ensures StandsAt(ToCall(Joined(Own(fs, i))), CallsFrom(fs, low), Present(fs, low, i))
    decreases i - low
  {
    if low < i {
      CallPosition(fs, low + 1, i);
      ShiftedBy(ToCall(Joined(Own(fs, i))), CallOf(Own(fs, low)), CallsFrom(fs, low + 1), Present(fs, low + 1, i));
    }
  }

  lemma {:induction false} CallCount(fs: seq<Fragment>, low: nat)
    requires low <= INDEXES
    ensures |CallsFrom(fs, low)| == Present(fs, low, INDEXES)
    decreases INDEXES - low
  {
    if low < INDEXES {
      CallCount(fs, low + 1);
    }
  }

  lemma {:induction false} IndexesAllowed(chunks: seq<Chunk>, j: int)
    requires Fault(chunks) == None && 0 <= j < |Heard(chunks).fragments|
    ensures 0 <= Heard(chunks).fragments[j].index < INDEXES
  {
    var n := |chunks| - 1;
    var front := Heard(chunks[..n]).fragments;
    if j < |front| {
      IndexesAllowed(chunks[..n], j);
    } else {
      assert FragmentAllowed(chunks[n].fragments[j - |front|]);
    }
  }

  lemma {:induction false} OwnAreAmong(fs: seq<Fragment>, i: int)
    requires Own(fs, i) != []
    ensures exists j :: 0 <= j < |fs| && fs[j].index == i
  {
    var n := |fs| - 1;
    if fs[n].index != i {
      OwnAreAmong(fs[..n], i);
      var j :| 0 <= j < n && fs[..n][j].index == i;
      assert fs[j].index == i;
    }
  }

  /** No call is lost, none is invented and they come in index order: an index with fragments has
      exactly what its own fragments carry, joined in arrival order, at the place that the number of
      smaller such indexes gives, and there are no further calls. */
  lemma EveryCallOfTheStream(chunks: seq<Chunk>, i: int)
    requires Assembled(chunks).Ok?
    requires Own(Heard(chunks).fragments, i) != []
    ensures 0 <= i < INDEXES
    ensures var fs, calls := Heard(chunks).fragments, Assembled(chunks).value.toolCalls;
            && calls.Some?
            && |calls.value| == Present(fs, 0, INDEXES)
            && StandsAt(ToCall(Joined(Own(fs, i))), calls.value, Present(fs, 0, i))
  {
    var fs := Heard(chunks).fragments;
    OwnAreAmong(fs, i);
    var j :| 0 <= j < |fs| && fs[j].index == i;
    IndexesAllowed(chunks, j);
    CallPosition(fs, 0, i);
    CallCount(fs, 0);
  }
}
