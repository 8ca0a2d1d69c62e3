/**
 The answers to a stream of chunks (assemble_inference_stream in protocol/inference_wire.py)
 told in the fields of its chunks, without the functions that assemble them.
 */
module InferenceAnswers {
  import opened Basics
  import opened InferenceStream

  /** The chunks before `k` keep the contract and the binding of the first one. */
  ghost predicate FineUpTo(chunks: seq<Chunk>, k: int)
    requires k <= |chunks|
  {
    forall j :: 0 <= j < k ==> ChunkAllowed(chunks[j]) && chunks[j].binding == chunks[0].binding
  }

  ghost predicate BreaksContract(chunks: seq<Chunk>, k: int) {
    0 <= k < |chunks| && FineUpTo(chunks, k) && !ChunkAllowed(chunks[k])
  }

  ghost predicate ChangesBinding(chunks: seq<Chunk>, k: int) {
    && 0 <= k < |chunks| && FineUpTo(chunks, k)
    && ChunkAllowed(chunks[k]) && chunks[k].binding != chunks[0].binding
  }

  function AllText(chunks: seq<Chunk>): string {
    if chunks == [] then "" else chunks[0].delta + AllText(chunks[1..])
  }

  function AllFragments(chunks: seq<Chunk>): seq<Fragment> {
    if chunks == [] then [] else chunks[0].fragments + AllFragments(chunks[1..])
  }

  /** The usage of the last chunk that has one. */
  ghost predicate LatestUsage(chunks: seq<Chunk>, usage: Option<Usage>) {
    match usage
    case None => forall k :: 0 <= k < |chunks| ==> chunks[k].usage.None?
    case Some(_) =>
      exists k ::
        && 0 <= k < |chunks| && chunks[k].usage == usage
        && forall j :: k < j < |chunks| ==> chunks[j].usage.None?
  }

  /** All names that came for call index `i`, one after the other. */
  function NameOf(fs: seq<Fragment>, i: int): string {
    if fs == [] then ""
    else (if fs[0].index == i && fs[0].name.Some? then fs[0].name.value else "") + NameOf(fs[1..], i)
  }

  function ArgumentsOf(fs: seq<Fragment>, i: int): string {
    if fs == [] then ""
    else (if fs[0].index == i && fs[0].arguments.Some? then fs[0].arguments.value else "") + ArgumentsOf(fs[1..], i)
  }

  /** The id of the last fragment for `i` that has one, or nothing. */
  ghost predicate LatestId(fs: seq<Fragment>, i: int, id: string) {
    || (id == "" && forall k :: 0 <= k < |fs| && fs[k].index == i ==> fs[k].id.None?)
    || (exists k ::
          && 0 <= k < |fs| && fs[k].index == i && fs[k].id == Some(id)
          && forall j :: k < j < |fs| && fs[j].index == i ==> fs[j].id.None?)
  }

  ghost predicate CallFor(fs: seq<Fragment>, i: int, c: Call) {
    c.kind == "function" && c.name == NameOf(fs, i) && c.arguments == ArgumentsOf(fs, i) && LatestId(fs, i, c.id)
  }

  /** One call for each index with fragments, in ascending order; `at` are these indexes. */
  ghost predicate CallsAt(fs: seq<Fragment>, calls: seq<Call>, at: seq<int>) {
    && |calls| == |at|
    && (forall j, k :: 0 <= j < k < |at| ==> at[j] < at[k])
    && (forall i :: i in at <==> exists k :: 0 <= k < |fs| && fs[k].index == i)
    && (forall k :: 0 <= k < |at| ==> CallFor(fs, at[k], calls[k]))
  }

  /** Which answer a stream gets. */
  ghost predicate AnswerSpec(chunks: seq<Chunk>, r: Result<Response, Problem>) {
    match r
    case Err(ContractViolated) => exists k :: BreaksContract(chunks, k)
    case Err(BindingChanged) => exists k :: ChangesBinding(chunks, k)
    case Err(NoFinalChunk) =>
      FineUpTo(chunks, |chunks|) && forall k :: 0 <= k < |chunks| ==> !chunks[k].done
    case Ok(response) =>
      && FineUpTo(chunks, |chunks|) && (exists k :: 0 <= k < |chunks| && chunks[k].done)
      && response.output == AllText(chunks) && LatestUsage(chunks, response.usage)
      && var fs := AllFragments(chunks);
         if fs == [] then response.toolCalls == None
         else response.toolCalls.Some? && exists at :: CallsAt(fs, response.toolCalls.value, at)
  }

  // ------------------------------------------------------------------- refusals

  lemma FineInPrefix(chunks: seq<Chunk>, n: nat, k: int)
    requires k <= n <= |chunks|
    ensures FineUpTo(chunks[..n], k) <==> FineUpTo(chunks, k)
    ensures BreaksContract(chunks[..n], k) ==> BreaksContract(chunks, k)
    ensures ChangesBinding(chunks[..n], k) ==> ChangesBinding(chunks, k)
  {
    assert forall j :: 0 <= j < n ==> chunks[..n][j] == chunks[j];
  }

  lemma {:induction false} FaultExactly(chunks: seq<Chunk>) returns (k: int)
    ensures match Fault(chunks)
      case None => FineUpTo(chunks, |chunks|)
      case Some(ContractViolated) => BreaksContract(chunks, k)
      case Some(BindingChanged) => ChangesBinding(chunks, k)
      case Some(NoFinalChunk) => false
  {
    k := 0;
    if chunks != [] {
      var n := |chunks| - 1;
      k := FaultExactly(chunks[..n]);
      if Fault(chunks[..n]).Some? {
        FineInPrefix(chunks, n, k);
      } else {
        FineInPrefix(chunks, n, n);
        k := n;
      }
    }
  }

  // ------------------------------------------------------------- what was heard

  lemma {:induction false} TextSnoc(chunks: seq<Chunk>, c: Chunk)
    ensures AllText(chunks + [c]) == AllText(chunks) + c.delta
  {
    if chunks == [] {
      assert chunks + [c] == [c] && [c][1..] == [];
      assert AllText([c]) == c.delta + "";
    } else {
      assert (chunks + [c])[1..] == chunks[1..] + [c];
      TextSnoc(chunks[1..], c);
      Reassociate(chunks[0].delta, AllText(chunks[1..]), c.delta);
    }
  }

  lemma {:induction false} FragmentsSnoc(chunks: seq<Chunk>, c: Chunk)
    ensures AllFragments(chunks + [c]) == AllFragments(chunks) + c.fragments
  {
    if chunks == [] {
      assert chunks + [c] == [c] && [c][1..] == [];
      assert AllFragments([c]) == c.fragments + [];
    } else {
      assert (chunks + [c])[1..] == chunks[1..] + [c];
      FragmentsSnoc(chunks[1..], c);
      Reassociate(chunks[0].fragments, AllFragments(chunks[1..]), c.fragments);
    }
  }

  lemma {:induction false} HeardExactly(chunks: seq<Chunk>)
    ensures Heard(chunks).text == AllText(chunks) && Heard(chunks).fragments == AllFragments(chunks)
    ensures LatestUsage(chunks, Heard(chunks).usage)
  {
    if chunks != [] {
      var n := |chunks| - 1;
      var front := chunks[..n];
      HeardExactly(front);
      TextSnoc(front, chunks[n]);
      FragmentsSnoc(front, chunks[n]);
      Unsnoc(chunks);
      if chunks[n].usage.None? && Heard(front).usage.Some? {
        var k :| 0 <= k < n && front[k].usage == Heard(front).usage
                 && forall j :: k < j < n ==> front[j].usage.None?;
        assert chunks[k].usage == Heard(chunks).usage;
      }
    }
  }

  // ---------------------------------------------------------------------- calls

  lemma {:induction false} NameSnoc(fs: seq<Fragment>, f: Fragment, i: int)
    ensures NameOf(fs + [f], i) == NameOf(fs, i) + (if f.index == i then Piece(f.name) else "")
  {
    var last := if f.index == i then Piece(f.name) else "";
    if fs == [] {
      assert fs + [f] == [f] && [f][1..] == [];
      assert NameOf([f], i) == last + "";
    } else {
      assert (fs + [f])[1..] == fs[1..] + [f];
      NameSnoc(fs[1..], f, i);
      Reassociate(if fs[0].index == i then Piece(fs[0].name) else "", NameOf(fs[1..], i), last);
    }
  }

  lemma {:induction false} ArgumentsSnoc(fs: seq<Fragment>, f: Fragment, i: int)
    ensures ArgumentsOf(fs + [f], i) == ArgumentsOf(fs, i) + (if f.index == i then Piece(f.arguments) else "")
  {
    var last := if f.index == i then Piece(f.arguments) else "";
    if fs == [] {
      assert fs + [f] == [f] && [f][1..] == [];
      assert ArgumentsOf([f], i) == last + "";
    } else {
      assert (fs + [f])[1..] == fs[1..] + [f];
      ArgumentsSnoc(fs[1..], f, i);
      Reassociate(if fs[0].index == i then Piece(fs[0].arguments) else "", ArgumentsOf(fs[1..], i), last);
    }
  }

  lemma LatestIdSnoc(fs: seq<Fragment>, f: Fragment, i: int, id: string)
    requires LatestId(fs, i, id)
    ensures LatestId(fs + [f], i, if f.index == i && f.id.Some? then f.id.value else id)
  {
    var all := fs + [f];
    if f.index == i && f.id.Some? {
      assert all[|fs|].id == Some(f.id.value);
    } else if k :| 0 <= k < |fs| && fs[k].index == i && fs[k].id == Some(id)
                   && forall j :: k < j < |fs| && fs[j].index == i ==> fs[j].id.None? {
      assert all[k].id == Some(id);
    }
  }

  lemma {:induction false} JoinedExactly(fs: seq<Fragment>, i: int)
    ensures CallFor(fs, i, ToCall(Joined(Own(fs, i))))
  {
    if fs != [] {
      var n := |fs| - 1;
      JoinedExactly(fs[..n], i);
      NameSnoc(fs[..n], fs[n], i);
      ArgumentsSnoc(fs[..n], fs[n], i);
      LatestIdSnoc(fs[..n], fs[n], i, Piece(Joined(Own(fs[..n], i)).id));
      Unsnoc(fs);
      if fs[n].index == i {
        JoinedSnoc(Own(fs[..n], i), fs[n]);
      }
    }
  }

  lemma {:induction false} OwnExactly(fs: seq<Fragment>, i: int)
    ensures Own(fs, i) != [] <==> exists k :: 0 <= k < |fs| && fs[k].index == i
  {
    if fs != [] {
      var n := |fs| - 1;
      OwnExactly(fs[..n], i);
      if k :| 0 <= k < n && fs[..n][k].index == i {
        assert fs[k].index == i;
      }
      if k :| 0 <= k < |fs| && fs[k].index == i {
        assert k < n ==> fs[..n][k].index == i;
      }
    }
  }

  /** The indexes from `index` on that have fragments. */
  function Indexes(fs: seq<Fragment>, index: nat): seq<int>
    decreases INDEXES - index
  {
    if index >= INDEXES then []
    else (if Own(fs, index) == [] then [] else [index]) + Indexes(fs, index + 1)
  }

  lemma {:induction false} IndexesExactly(fs: seq<Fragment>, index: nat)
    ensures forall i :: i in Indexes(fs, index) <==> index <= i < INDEXES && Own(fs, i) != []
    ensures forall j, k :: 0 <= j < k < |Indexes(fs, index)| ==> Indexes(fs, index)[j] < Indexes(fs, index)[k]
    decreases INDEXES - index
  {
    if index < INDEXES {
      IndexesExactly(fs, index + 1);
      var rest := Indexes(fs, index + 1);
      forall k | 0 <= k < |rest|
        ensures rest[k] > index
      {
        assert rest[k] in rest;
      }
    }
  }

  lemma {:induction false} CallsExactly(fs: seq<Fragment>, index: nat)
    ensures |CallsFrom(fs, index)| == |Indexes(fs, index)|
    ensures forall k :: 0 <= k < |Indexes(fs, index)| ==> CallFor(fs, Indexes(fs, index)[k], CallsFrom(fs, index)[k])
    decreases INDEXES - index
  {
    if index < INDEXES {
      CallsExactly(fs, index + 1);
      JoinedExactly(fs, index);
    }
  }

  lemma IndexExactly(fs: seq<Fragment>, i: int)
    requires forall k :: 0 <= k < |fs| ==> 0 <= fs[k].index < INDEXES
    ensures i in Indexes(fs, 0) <==> exists k :: 0 <= k < |fs| && fs[k].index == i
  {
    OwnExactly(fs, i);
    IndexesExactly(fs, 0);
  }

  lemma CallsAtExactly(fs: seq<Fragment>)
    requires forall k :: 0 <= k < |fs| ==> 0 <= fs[k].index < INDEXES
    ensures CallsAt(fs, CallsFrom(fs, 0), Indexes(fs, 0))
  {
    CallsExactly(fs, 0);
    IndexesExactly(fs, 0);
    forall i: int
      ensures i in Indexes(fs, 0) <==> exists k :: 0 <= k < |fs| && fs[k].index == i
    {
      IndexExactly(fs, i);
    }
  }

  lemma AllCallsExactly(chunks: seq<Chunk>)
    requires Fault(chunks).None?
    ensures var fs := Heard(chunks).fragments; CallsAt(fs, CallsFrom(fs, 0), Indexes(fs, 0))
  {
    var fs := Heard(chunks).fragments;
    forall k | 0 <= k < |fs|
      ensures 0 <= fs[k].index < INDEXES
    {
      IndexesAllowed(chunks, k);
    }
    CallsAtExactly(fs);
  }

  /** The answer of the assembly is the one that the chunks call for. */
  lemma AnswerExactly(chunks: seq<Chunk>)
    ensures AnswerSpec(chunks, Assembled(chunks))
  {
    var fault := FaultExactly(chunks);
    HeardExactly(chunks);
    DoneIff(chunks);
    if Assembled(chunks).Ok? {
      AllCallsExactly(chunks);
    }
  }
}
