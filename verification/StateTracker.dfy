/** AFLNet's state-aware bookkeeping: known states, the inferred state machine, the seeds of
    each state and the states-by-seeds map, updated together after every interesting run. */
module StateTracker {
  import opened Bytes
  import opened Responses
  import opened StatePaths

  const UNREACHABLE: int := -1
  const REACHABLE: int := 0
  const FUZZED: int := 1

  /** state_info_t, as far as this bookkeeping goes; seeds are queue indices. */
  datatype StateInfo = StateInfo(seeds: seq<nat>, paths: nat, paths_discovered: nat)

  const NEW_STATE := StateInfo([], 0, 0)

  /** queue_entry: the state sequence each region is annotated with ([] for none). */
  datatype Entry = Entry(regions: seq<seq<nat>>, unique_state_count: nat)

  // ----- the states-by-seeds map -----

  ghost predicate Rectangle(m: seq<seq<int>>, rows: nat, cols: nat) {
    |m| == rows && forall i :: 0 <= i < rows ==> |m[i]| == cols
  }

  /** expand_was_fuzzed_map: new cells are UNREACHABLE, old cells keep their value. */
  method ExpandWasFuzzedMap(m: seq<seq<int>>, states: nat, qentries: nat, new_states: nat, new_qentries: nat)
    returns (r: seq<seq<int>>)
    requires Rectangle(m, states, qentries)
    ensures Rectangle(r, states + new_states, qentries + new_qentries)
    ensures forall i, j :: 0 <= i < states && 0 <= j < qentries ==> r[i][j] == m[i][j]
    ensures SameCells(m, r)
    ensures forall i, j :: 0 <= i < states + new_states && 0 <= j < qentries + new_qentries ==>
              (i >= states || j >= qentries ==> r[i][j] == UNREACHABLE)
  {
    r := [];
    for i := 0 to states + new_states
      invariant Rectangle(r, i, qentries + new_qentries)
      invariant forall k, j :: 0 <= k < i && k < states && 0 <= j < qentries ==> r[k][j] == m[k][j]
      invariant forall k, j :: 0 <= k < i && 0 <= j < qentries + new_qentries ==>
                  (k >= states || j >= qentries ==> r[k][j] == UNREACHABLE)
    {
      var row: seq<int> := if i < states then m[i] else seq(qentries, _ => UNREACHABLE);
      r := r + [row + seq(new_qentries, _ => UNREACHABLE)];
    }
  }

  /** A cell, UNREACHABLE outside the map. */
  function CellAt(m: seq<seq<int>>, i: nat, j: nat): int {
    if i < |m| && j < |m[i]| then m[i][j] else UNREACHABLE
  }

  ghost predicate SameCells(before: seq<seq<int>>, after: seq<seq<int>>) {
    forall i: nat, j: nat :: CellAt(after, i, j) == CellAt(before, i, j)
  }

  /** The cells of column q in the rows of `reached` are REACHABLE, all others as before. */
  ghost predicate CellsReached(before: seq<seq<int>>, after: seq<seq<int>>, ids: seq<nat>, q: nat, reached: set<nat>) {
    forall i: nat, j: nat ::
      CellAt(after, i, j) == if j == q && i < |ids| && ids[i] in reached then REACHABLE else CellAt(before, i, j)
  }

  lemma SameCellsTrans(a: seq<seq<int>>, b: seq<seq<int>>, c: seq<seq<int>>)
    requires SameCells(a, b) && SameCells(b, c)
    ensures SameCells(a, c)
  {
  }

  lemma SameThenReached(a: seq<seq<int>>, b: seq<seq<int>>, c: seq<seq<int>>, ids: seq<nat>, q: nat, reached: set<nat>)
    requires SameCells(a, b) && CellsReached(b, c, ids, q, reached)
    ensures CellsReached(a, c, ids, q, reached)
  {
  }

  lemma CellsReachedTrans(a: seq<seq<int>>, b: seq<seq<int>>, c: seq<seq<int>>, ids: seq<nat>, ids': seq<nat>, q: nat,
                          reached: set<nat>, more: set<nat>)
    requires CellsReached(a, b, ids, q, reached) && CellsReached(b, c, ids', q, more)
    requires ids <= ids' && NoRepeats(ids') && reached <= Elements(ids)
    ensures CellsReached(a, c, ids', q, reached + more)
  {
    forall i: nat, j: nat
      ensures CellAt(c, i, j) ==
                if j == q && i < |ids'| && ids'[i] in reached + more then REACHABLE else CellAt(a, i, j)
    {
      assert CellAt(b, i, j) == if j == q && i < |ids| && ids[i] in reached then REACHABLE else CellAt(a, i, j);
      if i < |ids'| && ids'[i] in reached {
        var k :| 0 <= k < |ids| && ids[k] == ids'[i];
        assert ids'[k] == ids'[i];
      }
    }
  }

  ghost predicate NoRepeats(ids: seq<nat>) {
    forall i, j :: 0 <= i < j < |ids| ==> ids[i] != ids[j]
  }

  function Last(s: seq<nat>): nat
    requires s != []
  {
    s[|s| - 1]
  }

  datatype Outcome =
    | NothingReceived                // no response to learn from
    | NoInitialState                 // PFATAL: state 0 is unknown
    | Updated(unexpected: bool)      // did the "supposed to be not reachable" branch run?

  class Tracker {
    // The path hash; khs_ipsm_paths keeps only hashes.
    const hash: seq<nat> -> nat

    var state_ids: seq<nat>
    var khms_states: map<nat, StateInfo>
    var ipsm_nodes: set<nat>
    var ipsm_edges: set<(nat, nat)>
    var khs_ipsm_paths: set<nat>
    var was_fuzzed_map: seq<seq<int>>
    var fuzzed_map_states: nat
    var fuzzed_map_qentries: nat
    var queue: seq<Entry>

    // The trimmed paths that have been recorded.
    ghost var seen: set<seq<nat>>

    /** state_ids lists each known state once, state 0 first. */
    ghost predicate IdsAgree()
      reads this`state_ids, this`khms_states
    {
      && NoRepeats(state_ids)
      && Elements(state_ids) == khms_states.Keys
      && (state_ids != [] ==> state_ids[0] == 0)
    }

    /** The nodes of the inferred state machine are the known states. */
    ghost predicate NodesAgree()
      reads this`ipsm_nodes, this`ipsm_edges, this`khms_states
    {
      && ipsm_nodes == khms_states.Keys
      && (forall e :: e in ipsm_edges ==> e.0 in ipsm_nodes && e.1 in ipsm_nodes)
    }

    /** One column per seed, one row per state (and a row for state 0 from the start). */
    ghost predicate MapShape()
      reads this`was_fuzzed_map, this`fuzzed_map_states, this`fuzzed_map_qentries, this`queue, this`state_ids
    {
      && Rectangle(was_fuzzed_map, fuzzed_map_states, fuzzed_map_qentries)
      && fuzzed_map_qentries == |queue|
      && fuzzed_map_states == (if queue == [] then 0 else if state_ids == [] then 1 else |state_ids|)
      && (queue == [] ==> state_ids == [])
    }

    /** A seed is listed under a state exactly when its cell says it can reach the state. */
    ghost predicate CellsAgree()
      requires IdsAgree() && MapShape()
      reads this`was_fuzzed_map, this`fuzzed_map_states, this`fuzzed_map_qentries, this`queue, this`state_ids,
            this`khms_states
    {
      && (forall i, q :: 0 <= i < |state_ids| && 0 <= q < |queue| ==>
            (was_fuzzed_map[i][q] != UNREACHABLE <==> q in khms_states[state_ids[i]].seeds))
      && (forall s, q :: s in khms_states && q in khms_states[s].seeds ==> q < |queue|)
      && (state_ids == [] ==> forall q :: 0 <= q < |queue| ==> was_fuzzed_map[0][q] == UNREACHABLE)
    }

    /** khs_ipsm_paths holds the hashes of recorded paths, whose states and transitions are
        all known (a path of one code records nothing else). */
    ghost predicate PathsAgree()
      reads this`khs_ipsm_paths, this`seen, this`khms_states, this`ipsm_edges
    {
      && khs_ipsm_paths == (set t | t in seen :: hash(t))
      && (forall t :: t in seen && |t| > 1 ==> Elements(t) <= khms_states.Keys && Edges(t) <= ipsm_edges)
    }

    /** The last state of every annotated region is known. */
    ghost predicate AnnotationsKnown()
      reads this`queue, this`khms_states
    {
      forall q, i :: 0 <= q < |queue| && 0 <= i < |queue[q].regions| && queue[q].regions[i] != [] ==>
        Last(queue[q].regions[i]) in khms_states
    }

    ghost predicate Core()
      reads this`was_fuzzed_map, this`fuzzed_map_states, this`fuzzed_map_qentries, this`queue, this`state_ids,
            this`khms_states
    {
      IdsAgree() && MapShape() && CellsAgree()
    }

    ghost predicate Valid()
      reads this
    {
      Core() && NodesAgree() && PathsAgree() && AnnotationsKnown()
    }

    /** setup_ipsm. */
    constructor (hash: seq<nat> -> nat)
      ensures Valid() && this.hash == hash && queue == [] && state_ids == []
      ensures seen == {} && khs_ipsm_paths == {} && khms_states == map[]
      ensures Matches(Books([], map[], {}, {}, {}))
    {
      this.hash := hash;
      state_ids, khms_states, ipsm_nodes, ipsm_edges := [], map[], {}, {};
      khs_ipsm_paths, seen := {}, {};
      was_fuzzed_map, fuzzed_map_states, fuzzed_map_qentries := [], 0, 0;
      queue := [];
    }

    /** get_state_index: linear search, state_ids_count when absent. */
    method GetStateIndex(state_id: nat) returns (index: nat)
      ensures index <= |state_ids| && (index < |state_ids| ==> state_ids[index] == state_id)
      ensures index == |state_ids| <==> state_id !in state_ids
    {
      index := 0;
      while index < |state_ids|
        invariant 0 <= index <= |state_ids|
        invariant forall i :: 0 <= i < index ==> state_ids[i] != state_id
      {
        if state_ids[index] == state_id {
          break;
        }
        index := index + 1;
      }
    }

    /** add_to_queue, with the number of regions of the new entry. */
    method AddToQueue(region_count: nat)
      requires Valid()
      modifies this`queue, this`was_fuzzed_map, this`fuzzed_map_states, this`fuzzed_map_qentries
      ensures Valid()
      ensures queue == old(queue) + [Entry(seq(region_count, _ => []), 0)]
      ensures SameCells(old(was_fuzzed_map), was_fuzzed_map)
    {
      hide SameCells;
      queue := queue + [Entry(seq(region_count, _ => []), 0)];
      if fuzzed_map_states != 0 {
        was_fuzzed_map := ExpandWasFuzzedMap(was_fuzzed_map, fuzzed_map_states, fuzzed_map_qentries, 0, 1);
        fuzzed_map_qentries := fuzzed_map_qentries + 1;
      } else {
        was_fuzzed_map := ExpandWasFuzzedMap(was_fuzzed_map, fuzzed_map_states, fuzzed_map_qentries, 1, 1);
        fuzzed_map_states, fuzzed_map_qentries := fuzzed_map_states + 1, fuzzed_map_qentries + 1;
      }
    }

    /** A state not seen before: hash table, id array and, except for state 0, a map row. */
    method AddState(id: nat, info: StateInfo)
      requires Core() && queue != [] && id !in khms_states
      requires state_ids == [] <==> id == 0
      requires info.seeds == []
      modifies this`khms_states, this`state_ids, this`was_fuzzed_map, this`fuzzed_map_states
      ensures Core()
      ensures khms_states == old(khms_states)[id := info] && state_ids == old(state_ids) + [id]
      ensures SameCells(old(was_fuzzed_map), was_fuzzed_map)
    {
      hide SameCells;
      NothingChanged(was_fuzzed_map);
      khms_states := khms_states[id := info];
      state_ids := state_ids + [id];
      if id != 0 {
        was_fuzzed_map := ExpandWasFuzzedMap(was_fuzzed_map, fuzzed_map_states, fuzzed_map_qentries, 1, 0);
        fuzzed_map_states := fuzzed_map_states + 1;
      }
    }

    /** One agnode call of the graph update: node, and everything a new state needs. */
    method AddNode(id: nat)
      requires Core() && ipsm_nodes == khms_states.Keys && queue != []
      requires state_ids == [] ==> id == 0
      modifies this`ipsm_nodes, this`khms_states, this`state_ids, this`was_fuzzed_map, this`fuzzed_map_states
      ensures Core() && ipsm_nodes == khms_states.Keys == old(khms_states.Keys) + {id}
      ensures forall s :: s in old(khms_states) ==> khms_states[s] == old(khms_states)[s]
      ensures id !in old(khms_states) ==> khms_states[id] == NEW_STATE
      ensures old(state_ids) <= state_ids && SameCells(old(was_fuzzed_map), was_fuzzed_map)
    {
      if id !in ipsm_nodes {
        ipsm_nodes := ipsm_nodes + {id};
        AddState(id, NEW_STATE);
      }
    }

    /** The seed q reaches the known state id. */
    method AddSeed(id: nat, q: nat)
      requires Core() && id in khms_states && q < |queue|
      modifies this`khms_states, this`was_fuzzed_map
      ensures Core()
      ensures khms_states == old(khms_states)[id := old(khms_states[id]).(seeds := old(khms_states[id]).seeds + [q])]
      ensures CellsReached(old(was_fuzzed_map), was_fuzzed_map, state_ids, q, {id})
    {
      khms_states := khms_states[id := khms_states[id].(seeds := khms_states[id].seeds + [q])];
      var index := GetStateIndex(id);
      was_fuzzed_map := was_fuzzed_map[index := was_fuzzed_map[index][q := REACHABLE]];
    }

    /** is_state_sequence_interesting. */
    method IsStateSequenceInteresting(state_sequence: seq<nat>) returns (interesting: bool)
      modifies this`khs_ipsm_paths
      ensures interesting <==> hash(Trim(state_sequence)) !in old(khs_ipsm_paths)
      ensures khs_ipsm_paths == old(khs_ipsm_paths) + {hash(Trim(state_sequence))}
    {
      var trimmed := TrimStateSequence(state_sequence);
      var hashKey := hash(trimmed);
      if hashKey in khs_ipsm_paths {
        return false;
      } else {
        khs_ipsm_paths := khs_ipsm_paths + {hashKey};
        return true;
      }
    }

    /** A path is no news when one with more or fewer turns in a loop has been recorded. */
    method LoopsAreNoNews(a: seq<nat>, x: nat, n: nat, m: nat, b: seq<nat>) returns (again: bool)
      requires n >= 2 && m >= 2
      modifies this`khs_ipsm_paths
      ensures !again
    {
      var first := IsStateSequenceInteresting(a + Turns(x, n) + b);
      TurnsDoNotMatter(a, x, n, b);
      TurnsDoNotMatter(a, x, m, b);
      again := IsStateSequenceInteresting(a + Turns(x, m) + b);
    }

    /** What a path teaches: nothing if its hash is taken or it is a single code, else all
        its states. */
    ghost predicate Teaches(state_sequence: seq<nat>)
      reads this
    {
      hash(Trim(state_sequence)) !in khs_ipsm_paths && |state_sequence| > 1
    }

    /** One transition of the path: both ends and the edge between them. */
    method AddEdge(prevStateID: nat, curStateID: nat)
      requires Core() && NodesAgree() && queue != []
      requires state_ids == [] ==> prevStateID == 0
      modifies this`ipsm_nodes, this`ipsm_edges, this`khms_states, this`state_ids
      modifies this`was_fuzzed_map, this`fuzzed_map_states
      ensures Core() && NodesAgree()
      ensures khms_states.Keys == old(khms_states.Keys) + {prevStateID, curStateID}
      ensures ipsm_edges == old(ipsm_edges) + {(prevStateID, curStateID)}
      ensures InfosKept(old(khms_states), khms_states)
      ensures old(state_ids) <= state_ids && SameCells(old(was_fuzzed_map), was_fuzzed_map)
    {
      hide Core, SameCells;
      AddNode(prevStateID);
      FirstIsKnown();
      ghost var middle := was_fuzzed_map;
      AddNode(curStateID);
      SameCellsTrans(old(was_fuzzed_map), middle, was_fuzzed_map);
      ipsm_edges := ipsm_edges + {(prevStateID, curStateID)};
    }

    /** The walk along an interesting path that updates the graph. */
    method LearnPath(state_sequence: seq<nat>)
      requires Core() && NodesAgree() && queue != []
      requires |state_sequence| > 1 && state_sequence[0] == 0
      modifies this`ipsm_nodes, this`ipsm_edges, this`khms_states, this`state_ids
      modifies this`was_fuzzed_map, this`fuzzed_map_states
      ensures Core() && NodesAgree()
      ensures khms_states.Keys == old(khms_states.Keys) + Elements(state_sequence)
      ensures ipsm_edges == old(ipsm_edges) + Edges(state_sequence)
      ensures InfosKept(old(khms_states), khms_states)
      ensures old(state_ids) <= state_ids && SameCells(old(was_fuzzed_map), was_fuzzed_map)
    {
      hide Core, SameCells;
      NothingChanged(was_fuzzed_map);
      var prevStateID := state_sequence[0];
      var i := 1;
      while i < |state_sequence|
        invariant 1 <= i <= |state_sequence| && prevStateID == state_sequence[i - 1]
        invariant Core() && NodesAgree()
        invariant khms_states.Keys == old(khms_states.Keys) + if i == 1 then {} else Elements(state_sequence[..i])
        invariant InfosKept(old(khms_states), khms_states) && (i > 1 ==> 0 in khms_states)
        invariant ipsm_edges == old(ipsm_edges) + Edges(state_sequence[..i])
        invariant old(state_ids) <= state_ids && SameCells(old(was_fuzzed_map), was_fuzzed_map)
      {
        var curStateID := state_sequence[i];
        FirstIsKnown();
        ghost var middle := was_fuzzed_map;
        EdgesGrow(state_sequence, i);
        AddEdge(prevStateID, curStateID);
        SameCellsTrans(old(was_fuzzed_map), middle, was_fuzzed_map);
        prevStateID := curStateID;
        i := i + 1;
        ElementsGrow(state_sequence, i);
      }
      assert state_sequence[..i] == state_sequence;
    }

    static lemma NothingChanged(m: seq<seq<int>>)
      ensures SameCells(m, m)
    {
    }

    static lemma EdgesGrow(s: seq<nat>, i: nat)
      requires 0 < i < |s|
      ensures Edges(s[..i + 1]) == Edges(s[..i]) + {(s[i - 1], s[i])}
    {
      assert s[..i + 1][..i] == s[..i];
    }

    lemma FirstIsKnown()
      requires Core()
      ensures khms_states.Keys != {} ==> state_ids != [] && state_ids[0] == 0 && 0 in khms_states
    {
      assert state_ids != [] ==> state_ids[0] in Elements(state_ids);
    }

    /** The graph part of update_state_aware_variables. */
    method RecordPath(state_sequence: seq<nat>)
      requires Valid() && queue != []
      requires state_sequence != [] && state_sequence[0] == 0
      modifies this`khs_ipsm_paths, this`ipsm_nodes, this`ipsm_edges, this`khms_states, this`state_ids, this`seen
      modifies this`was_fuzzed_map, this`fuzzed_map_states
      ensures Valid()
      ensures khms_states.Keys ==
                old(khms_states.Keys) + if old(Teaches(state_sequence)) then Elements(state_sequence) else {}
      ensures InfosKept(old(khms_states), khms_states)
      ensures seen ==
                if hash(Trim(state_sequence)) in old(khs_ipsm_paths) then old(seen)
                  else old(seen) + {Trim(state_sequence)}
      ensures ipsm_edges == old(ipsm_edges) + if old(Teaches(state_sequence)) then Edges(state_sequence) else {}
      ensures old(state_ids) <= state_ids && SameCells(old(was_fuzzed_map), was_fuzzed_map)
    {
      hide Core, Elements, Trim, Edges, SameCells;
      NothingChanged(was_fuzzed_map);
      var interesting := IsStateSequenceInteresting(state_sequence);
      if interesting {
        if |state_sequence| > 1 {
          LearnPath(state_sequence);
        } else {
          TrimOfOne(state_sequence);
        }
        seen := seen + {Trim(state_sequence)};
        TrimKeepsStates(state_sequence);
        TrimKeepsEdges(state_sequence);
      } else {
        assert khs_ipsm_paths == old(khs_ipsm_paths);
      }
    }

    /** update_region_annotations. */
    method AnnotateRegions(q: nat, response_buf: seq<byte>, response_bytes: seq<nat>)
      requires q < |queue| && |response_bytes| <= |queue[q].regions|
      requires forall i :: 0 <= i < |response_bytes| ==> response_bytes[i] <= |response_buf|
      modifies this`queue
      ensures old(Core()) ==> Core()
      ensures queue ==
                old(queue)[q :=
                  old(queue[q]).(regions := Annotated(old(queue[q].regions), response_buf, response_bytes))]
    {
      ghost var before := queue[q].regions;
      var i := 0;
      while i < |response_bytes|
        invariant 0 <= i <= |response_bytes|
        invariant |queue| == |old(queue)| && |queue[q].regions| == |before|
        invariant queue == old(queue)[q := old(queue[q]).(regions := queue[q].regions)]
        invariant forall k :: 0 <= k < |before| ==>
                    queue[q].regions[k] == if k < i then Annotation(response_buf, response_bytes, k) else before[k]
      {
        var annotation: seq<nat>;
        if response_bytes[i] == 0 || (i > 0 && response_bytes[i] == response_bytes[i - 1]) {
          annotation := [];
        } else {
          annotation := ExtractResponseCodes(response_buf[..response_bytes[i]]);
        }
        queue := queue[q := queue[q].(regions := queue[q].regions[i := annotation])];
        i := i + 1;
      }
      assert queue[q].regions == Annotated(before, response_buf, response_bytes);
    }

    /** The seed q reaches state id, known or, in the branch that is supposed to be not
        reachable, unknown so far. */
    method ReachState(id: nat, q: nat) returns (unexpected: bool)
      requires Core() && q < |queue|
      requires 0 in khms_states
      modifies this`khms_states, this`state_ids, this`was_fuzzed_map, this`fuzzed_map_states
      ensures Core()
      ensures SeedsAdded(old(khms_states), khms_states, q, {id})
      ensures unexpected <==> id !in old(khms_states)
      ensures CellsReached(old(was_fuzzed_map), was_fuzzed_map, state_ids, q, {id})
      ensures old(state_ids) <= state_ids && id in khms_states
    {
      hide Core, CellsReached, SameCells;
      ghost var before := khms_states;
      FirstIsKnown();
      if id in khms_states {
        AddSeed(id, q);
        unexpected := false;
      } else {
        AddState(id, NEW_STATE);
        ghost var middle := was_fuzzed_map;
        AddSeed(id, q);
        SameThenReached(old(was_fuzzed_map), middle, was_fuzzed_map, state_ids, q, {id});
        unexpected := true;
      }
      OneSeedAdded(before, khms_states, q, id);
    }

    method SetUniqueStateCount(q: nat, count: nat)
      requires q < |queue|
      modifies this`queue
      ensures old(Core()) ==> Core()
      ensures queue == old(queue)[q := old(queue[q]).(unique_state_count := count)]
    {
      queue := queue[q := queue[q].(unique_state_count := count)];
    }

    /** Registers the seed q with state 0 and with the last state of each annotated region;
        says whether a region's state had never been seen. */
    method SpreadSeed(q: nat) returns (unexpected: bool)
      requires Core() && 0 in khms_states && q < |queue|
      modifies this`khms_states, this`state_ids, this`was_fuzzed_map, this`fuzzed_map_states
      ensures Core()
      ensures SeedsAdded(old(khms_states), khms_states, q, {0} + LastStates(queue[q].regions))
      ensures unexpected <==> !(LastStates(queue[q].regions) <= old(khms_states.Keys))
      ensures CellsReached(old(was_fuzzed_map), was_fuzzed_map, state_ids, q, {0} + LastStates(queue[q].regions))
      ensures old(state_ids) <= state_ids
    {
      hide Core, SeedsAdded, LastStates, CellsReached, Elements, NoRepeats;
      ghost var before := khms_states;
      unexpected := ReachState(0, q);
      SeedsAddedKeys(before, khms_states, q, {0});
      var regions := queue[q].regions;
      NoLastStates();
      var i := 0;
      assert regions[..0] == [];
      assert {0} + LastStates(regions[..0]) == {0};
      while i < |regions|
        invariant 0 <= i <= |regions| && Core() && regions == queue[q].regions
        invariant SeedsAdded(before, khms_states, q, {0} + LastStates(regions[..i]))
        invariant khms_states.Keys == before.Keys + LastStates(regions[..i]) && 0 in khms_states
        invariant unexpected <==> !(LastStates(regions[..i]) <= before.Keys)
        invariant CellsReached(old(was_fuzzed_map), was_fuzzed_map, state_ids, q, {0} + LastStates(regions[..i]))
        invariant old(state_ids) <= state_ids
      {
        LastStatesGrow(regions, i);
        if |regions[i]| > 0 {
          var reachable_state_id := regions[i][|regions[i]| - 1];
          ghost var middle, cells, ids := khms_states, was_fuzzed_map, state_ids;
          IdsAreKnown();
          SeedsAddedKeys(before, middle, q, {0} + LastStates(regions[..i]));
          var unknown := ReachState(reachable_state_id, q);
          IdsAreKnown();
          CellsReachedTrans(old(was_fuzzed_map), cells, was_fuzzed_map, ids, state_ids, q,
                            {0} + LastStates(regions[..i]), {reachable_state_id});
          SeedsAddedTrans(before, middle, khms_states, q, {0} + LastStates(regions[..i]), {reachable_state_id});
          assert {0} + LastStates(regions[..i]) + {reachable_state_id} == {0} + LastStates(regions[..i + 1]);
          SeedsAddedKeys(before, khms_states, q, {0} + LastStates(regions[..i + 1]));
          unexpected := unexpected || unknown;
        }
        i := i + 1;
      }
      assert regions[..i] == regions;
    }

    lemma IdsAreKnown()
      requires Core()
      ensures NoRepeats(state_ids) && Elements(state_ids) == khms_states.Keys
    {
    }

    /** The `paths` counters: once per state of the sequence. */
    method CountPaths(state_sequence: seq<nat>)
      requires Core()
      modifies this`khms_states
      ensures Core() && PathsCounted(old(khms_states), khms_states, Elements(state_sequence))
    {
      hide Elements;
      ghost var before := khms_states;
      var seen_ids: set<nat> := {};
      ElementsEnds(state_sequence);
      for i := 0 to |state_sequence|
        invariant Core() && seen_ids == Elements(state_sequence[..i])
        invariant PathsCounted(before, khms_states, seen_ids)
      {
        var state_id := state_sequence[i];
        ElementsSnoc(state_sequence, i);
        if state_id in seen_ids {
          continue;
        }
        seen_ids := seen_ids + {state_id};
        if state_id in khms_states {
          khms_states := khms_states[state_id := khms_states[state_id].(paths := khms_states[state_id].paths + 1)];
        }
      }
      assert state_sequence[..|state_sequence|] == state_sequence;
    }

    /** The hash of the trimmed path is taken, but by a different path. */
    ghost predicate FalseHit(state_sequence: seq<nat>)
      reads this
    {
      hash(Trim(state_sequence)) in khs_ipsm_paths && Trim(state_sequence) !in seen
    }

    /** Why the branch can only run after a collision: whatever the regions end in has been
        received, so it is on the path, and a path is unknown only if its hash was taken. */
    lemma WhenUnexpected(codes: seq<nat>, last: set<nat>)
      requires Valid() && codes != [] && codes[0] == 0
      requires last <= Elements(codes) + khms_states.Keys
      ensures 0 in Elements(codes)
      ensures var keys := khms_states.Keys + if Teaches(codes) then Elements(codes) else {};
              0 in keys ==> (!(last <= keys) <==> FalseHit(codes) && !(last <= khms_states.Keys))
    {
      if !Teaches(codes) && 0 in khms_states {
        if |codes| == 1 {
          assert Elements(codes) == {0};
        } else {
          TrimKeepsStates(codes);
        }
      }
    }

    /** The `paths_discovered` counter of the target state. */
    method CountDiscovery(id: nat)
      requires Core() && id in khms_states
      modifies this`khms_states
      ensures Core()
      ensures var info := old(khms_states[id]);
              khms_states == old(khms_states)[id := info.(paths_discovered := info.paths_discovered + 1)]
    {
      khms_states := khms_states[id := khms_states[id].(paths_discovered := khms_states[id].paths_discovered + 1)];
    }

    /** The part of update_state_aware_variables after the annotation. */
    method Register(q: nat, state_sequence: seq<nat>, dry_run: bool, target_state_id: nat) returns (unexpected: bool)
      requires Core() && 0 in khms_states && q < |queue|
      modifies this`khms_states, this`state_ids, this`was_fuzzed_map, this`fuzzed_map_states
      ensures Core()
      ensures khms_states.Keys == old(khms_states.Keys) + {0} + LastStates(queue[q].regions)
      ensures SeedsListed(old(khms_states), khms_states, q, {0} + LastStates(queue[q].regions))
      ensures CountersUpdated(old(khms_states), khms_states, Elements(state_sequence),
                              if dry_run then {} else {target_state_id})
      ensures unexpected <==> !(LastStates(queue[q].regions) <= old(khms_states.Keys))
      ensures CellsReached(old(was_fuzzed_map), was_fuzzed_map, state_ids, q, {0} + LastStates(queue[q].regions))
      ensures old(state_ids) <= state_ids
      ensures old(NodesAgree()) && unexpected ==> !NodesAgree()
      ensures old(NodesAgree() && PathsAgree()) && khms_states.Keys == old(khms_states.Keys) ==>
              NodesAgree() && PathsAgree()
    {
      hide LastStates, Elements, Core, SeedsAdded, SeedsListed, PathsCounted, CountersUpdated, CellsReached;
      ghost var before := khms_states;
      unexpected := SpreadSeed(q);
      ghost var spread := khms_states;
      CountPaths(state_sequence);
      ghost var counted := khms_states;
      if !dry_run && target_state_id in khms_states {
        CountDiscovery(target_state_id);
      }
      Registered(before, spread, counted, khms_states, q, {0} + LastStates(queue[q].regions), Elements(state_sequence),
                 dry_run, target_state_id);
    }

    /** The part of update_state_aware_variables up to the annotation. */
    method LearnAndAnnotate(q: nat, state_sequence: seq<nat>, response_buf: seq<byte>, response_bytes: seq<nat>)
      requires Valid() && q < |queue|
      requires state_sequence == Codes(response_buf)
      requires |response_bytes| <= |queue[q].regions|
      requires forall i :: 0 <= i < |response_bytes| ==> response_bytes[i] <= |response_buf|
      modifies this
      ensures Core() && NodesAgree() && PathsAgree()
      ensures khms_states.Keys ==
                old(khms_states.Keys) + if old(Teaches(state_sequence)) then Elements(state_sequence) else {}
      ensures InfosKept(old(khms_states), khms_states)
      ensures seen == old(seen) +
              (if hash(Trim(state_sequence)) in old(khs_ipsm_paths) then {} else {Trim(state_sequence)})
      ensures queue == old(queue)[q := Entry(Annotated(old(queue[q].regions), response_buf, response_bytes),
                                             |Elements(state_sequence)|)]
      ensures LastStates(queue[q].regions) <= khms_states.Keys ==> AnnotationsKnown()
      ensures ipsm_edges == old(ipsm_edges) + if old(Teaches(state_sequence)) then Edges(state_sequence) else {}
      ensures SameCells(old(was_fuzzed_map), was_fuzzed_map) && old(state_ids) <= state_ids
    {
      hide Core, Elements, Annotated, Teaches, InfosKept, Edges, SameCells;
      OnlyTheFirstIsZero(response_buf);
      RecordPath(state_sequence);
      ghost var before := queue;
      assert AnnotationsKnown();
      AnnotateRegions(q, response_buf, response_bytes);
      SetUniqueStateCount(q, |Elements(state_sequence)|);
      if LastStates(queue[q].regions) <= khms_states.Keys {
        LastStatesKnown(queue[q].regions, khms_states.Keys);
      }
    }

    /** update_state_aware_variables for queue entry q.  The branch that is "supposed to be
        not reachable" runs exactly when a collision of the path hash hides a state that some
        region ends in; otherwise everything stays consistent. */
    method UpdateStateAwareVariables(q: nat, response_buf: seq<byte>, response_bytes: seq<nat>, dry_run: bool,
                                     target_state_id: nat)
      returns (r: Outcome)
      requires Valid() && q < |queue|
      requires |response_bytes| <= |queue[q].regions|
      requires forall i :: 0 <= i < |response_bytes| ==> response_bytes[i] <= |response_buf|
      modifies this
      ensures r == NothingReceived <==> response_buf == [] || response_bytes == []
      ensures r == NothingReceived ==> unchanged(this)
      ensures r != NothingReceived ==>
                (r == NoInitialState <==> 0 !in old(khms_states) && !old(Teaches(Codes(response_buf))))
      ensures r.Updated? ==>
                var regions := Annotated(old(queue[q].regions), response_buf, response_bytes);
                && queue == old(queue)[q := Entry(regions, |Elements(Codes(response_buf))|)]
                && (r.unexpected <==>
                    old(FalseHit(Codes(response_buf))) && !(LastStates(regions) <= old(khms_states.Keys)))
                && seen == old(seen) +
                   (if old(hash(Trim(Codes(response_buf))) in khs_ipsm_paths) then {} else {Trim(Codes(response_buf))})
                && ipsm_edges == old(ipsm_edges) +
                   (if old(Teaches(Codes(response_buf))) then Edges(Codes(response_buf)) else {})
                && CellsReached(old(was_fuzzed_map), was_fuzzed_map, state_ids, q, {0} + LastStates(regions))
                && old(state_ids) <= state_ids
                && Core() && (r.unexpected ==> !NodesAgree())
                && (!r.unexpected ==>
                    Valid() && AfterUpdate(old(khms_states), khms_states, q, regions, Codes(response_buf),
                      old(Teaches(Codes(response_buf))), if dry_run then {} else {target_state_id}))
    {
      hide Core, LastStates, Elements, Annotated, Teaches, FalseHit, AfterUpdate, InfosKept, NodesAgree, PathsAgree,
           Annotation, Edges, CellsReached, Trim, Valid;
      if |response_buf| == 0 || |response_bytes| == 0 {
        return NothingReceived;
      }
      var state_sequence := ExtractResponseCodes(response_buf);
      r := UpdateFromCodes(q, state_sequence, response_buf, response_bytes, dry_run, target_state_id);
    }

    /** The rest of it, with the codes of the response. */
    method UpdateFromCodes(q: nat, state_sequence: seq<nat>, response_buf: seq<byte>, response_bytes: seq<nat>,
                           dry_run: bool, target_state_id: nat) returns (r: Outcome)
      requires Valid() && q < |queue| && state_sequence == Codes(response_buf)
      requires |response_bytes| <= |queue[q].regions|
      requires forall i :: 0 <= i < |response_bytes| ==> response_bytes[i] <= |response_buf|
      modifies this
      ensures r != NothingReceived
      ensures r == NoInitialState <==> 0 !in old(khms_states) && !old(Teaches(state_sequence))
      ensures r.Updated? ==>
                var regions := Annotated(old(queue[q].regions), response_buf, response_bytes);
                && queue == old(queue)[q := Entry(regions, |Elements(state_sequence)|)]
                && (r.unexpected <==> old(FalseHit(state_sequence)) && !(LastStates(regions) <= old(khms_states.Keys)))
                && seen == old(seen) +
                   (if old(hash(Trim(state_sequence)) in khs_ipsm_paths) then {} else {Trim(state_sequence)})
                && ipsm_edges == old(ipsm_edges) + (if old(Teaches(state_sequence)) then Edges(state_sequence) else {})
                && CellsReached(old(was_fuzzed_map), was_fuzzed_map, state_ids, q, {0} + LastStates(regions))
                && old(state_ids) <= state_ids
                && Core() && (r.unexpected ==> !NodesAgree())
                && (!r.unexpected ==> Valid() && AfterUpdate(old(khms_states), khms_states, q, regions, state_sequence,
                      old(Teaches(state_sequence)), if dry_run then {} else {target_state_id}))
    {
      hide Core, LastStates, Elements, Annotated, Teaches, FalseHit, SeedsListed, CountersUpdated, AfterUpdate,
           InfosKept, NodesAgree, PathsAgree, Annotation, Edges, CellsReached, SameCells, Codes;
      OnlyTheFirstIsZero(response_buf);
      ghost var regions := Annotated(queue[q].regions, response_buf, response_bytes);
      LastStatesReceived(queue[q].regions, response_buf, response_bytes, khms_states.Keys);
      WhenUnexpected(state_sequence, LastStates(regions));
      ghost var before := khms_states;
      ghost var teaches := Teaches(state_sequence);
      LearnAndAnnotate(q, state_sequence, response_buf, response_bytes);
      ghost var learned, cells := khms_states, was_fuzzed_map;
      if 0 !in khms_states {
        return NoInitialState;
      }
      var unexpected := Register(q, state_sequence, dry_run, target_state_id);
      SameThenReached(old(was_fuzzed_map), cells, was_fuzzed_map, state_ids, q, {0} + LastStates(regions));
      if !unexpected {
        AfterBoth(before, learned, khms_states, q, regions, state_sequence, teaches,
                  if dry_run then {} else {target_state_id});
      }
      return Updated(unexpected);
    }

    /** The end of fuzz_one: the selected seed, one of the target state's, has been fuzzed. */
    method MarkFuzzed(target_state_id: nat, q: nat)
      requires Valid() && target_state_id in khms_states && q in khms_states[target_state_id].seeds
      modifies this`was_fuzzed_map
      ensures Valid()
      ensures forall i, j :: 0 <= i < |state_ids| && 0 <= j < |queue| ==>
                was_fuzzed_map[i][j] ==
                  if state_ids[i] == target_state_id && j == q then FUZZED else old(was_fuzzed_map[i][j])
    {
      var index := GetStateIndex(target_state_id);
      was_fuzzed_map := was_fuzzed_map[index := was_fuzzed_map[index][q := FUZZED]];
    }

    lemma SeenIsHashed(path: seq<nat>)
      requires Valid() && path in seen
      ensures hash(path) in khs_ipsm_paths
    {
    }

    /** A path whose hash none of the recorded ones shares is no false hit. */
    lemma NoFalseHits(codes: seq<nat>)
      requires Valid() && NoCollision(hash, seen + {Trim(codes)})
      ensures !FalseHit(codes)
      ensures hash(Trim(codes)) in khs_ipsm_paths <==> Trim(codes) in seen
    {
      if hash(Trim(codes)) in khs_ipsm_paths {
        var t :| t in seen && hash(t) == hash(Trim(codes));
      }
    }

    /** The bookkeeping is what b says. */
    ghost predicate Matches(b: Books)
      reads this
    {
      && queue == b.queue && seen == b.paths && ipsm_edges == b.edges
      && RecordsMatch(khms_states, b)
      && CellsFuzzed(was_fuzzed_map, state_ids, b.fuzzed)
      && (forall p :: p in b.fuzzed ==> p.0 in b.records)
    }

    /** update_state_aware_variables as an event of a run. */
    method StepRan(q: nat, response_buf: seq<byte>, response_bytes: seq<nat>, dry_run: bool, target: nat,
                   ghost b: Books)
      returns (r: Outcome)
      requires Valid() && Matches(b) && Allowed(b, Ran(q, response_buf, response_bytes, dry_run, target))
      requires NoCollision(hash, b.paths + {Trim(Codes(response_buf))})
      modifies this
      ensures r == OutcomeOf(b, Ran(q, response_buf, response_bytes, dry_run, target))
      ensures r != NoInitialState ==>
              Valid() && Matches(After(b, Ran(q, response_buf, response_bytes, dry_run, target)))
    {
      hide Valid, FalseHit, Annotated, AfterUpdate, CellsReached, CellsFuzzed, Elements, Edges, Trim, Codes,
           LastStates, RecordMatches;
      hide AfterResponse, Tracker.Core, Tracker.NodesAgree, NoCollision, Known, After, OutcomeOf;
      RanIs(b, q, response_buf, response_bytes, dry_run, target);
      ghost var codes := Codes(response_buf);
      NoFalseHits(codes);
      UnknownIdsUnfuzzed(b);
      KnownIs(b, codes);
      OnlyTheFirstIsZero(response_buf);
      FirstIsElement(codes);
      ghost var known, ids, cells := khms_states, state_ids, was_fuzzed_map;
      ghost var regions := Annotated(queue[q].regions, response_buf, response_bytes);
      assert RecordsMatch(known, b);
      r := UpdateStateAwareVariables(q, response_buf, response_bytes, dry_run, target);
      if r.Updated? {
        IdsOfValid();
        BooksFollow(known, ids, cells, b, q, regions, codes, if dry_run then {} else {target});
      }
    }

    lemma BooksFollow(known: map<nat, StateInfo>, ids: seq<nat>, cells: seq<seq<int>>, b: Books, q: nat,
                      regions: seq<seq<nat>>, codes: seq<nat>, targets: set<nat>)
      requires q < |b.queue| && queue == b.queue[q := Entry(regions, |Elements(codes)|)]
      requires seen == b.paths + {Trim(codes)}
      requires ipsm_edges == b.edges + if Trim(codes) !in b.paths && |codes| > 1 then Edges(codes) else {}
      requires RecordsMatch(known, b)
      requires AfterUpdate(known, khms_states, q, regions, codes, Trim(codes) !in b.paths && |codes| > 1, targets)
      requires CellsReached(cells, was_fuzzed_map, state_ids, q, {0} + LastStates(regions)) &&
               CellsFuzzed(cells, ids, b.fuzzed)
      requires ids <= state_ids && NoRepeats(state_ids)
      requires forall i: nat, j: nat :: i >= |ids| ==> CellAt(cells, i, j) != FUZZED
      requires forall p :: p in b.fuzzed ==> p.0 in ids && p.0 in b.records
      ensures Matches(AfterResponse(b, q, regions, codes, targets))
    {
      hide AfterUpdate, CellsReached, CellsFuzzed, Elements, Edges, Trim, LastStates, RecordMatches, AfterResponse,
           NoRepeats, Known;
      KnownIs(b, codes);
      RecordsFollow(known, khms_states, q, regions, codes, targets, b);
      AfterResponseIs(b, q, regions, codes, targets);
      CellsFollow(cells, was_fuzzed_map, ids, state_ids, q, {0} + LastStates(regions), b.fuzzed,
                  AfterResponse(b, q, regions, codes, targets).fuzzed);
    }

    lemma IdsOfValid()
      requires Valid()
      ensures NoRepeats(state_ids)
    {
    }

    /** Rows beyond the known states hold nothing. */
    lemma UnknownIdsUnfuzzed(b: Books)
      requires Valid() && Matches(b)
      ensures forall i: nat, j: nat :: i >= |state_ids| ==> CellAt(was_fuzzed_map, i, j) != FUZZED
      ensures forall p :: p in b.fuzzed ==> p.0 in state_ids
    {
      forall p | p in b.fuzzed ensures p.0 in state_ids {
        assert khms_states.Keys == Elements(state_ids) && p.0 in khms_states.Keys;
      }
    }

    /** Any step of a fuzzing run: if the hash of the new path is not that of another recorded
        one, the books are kept as they should be and the unexpected branch does not run. */
    method Step(e: Event, ghost b: Books) returns (r: Outcome)
      requires Valid() && Matches(b) && Allowed(b, e) && NoCollision(hash, b.paths + PathOf(e))
      modifies this
      ensures r == OutcomeOf(b, e)
      ensures r != NoInitialState ==> Valid() && Matches(After(b, e))
    {
      match e {
        case Queued(region_count) =>
          AddToQueue(region_count);
          r := Updated(false);
        case Ran(q, buf, bytes, dry_run, target) =>
          r := StepRan(q, buf, bytes, dry_run, target, b);
        case Fuzzed(target, q) =>
          MarkFuzzed(target, q);
          r := Updated(false);
      }
    }

    lemma IsInformed(b: Books)
      requires Valid() && Matches(b)
      ensures Informed(b) && |b.queue| == |queue|
    {
    }

    lemma FinalBooks(b: Books, events: seq<Event>)
      requires AllAllowed(b, events) && Matches(AfterAll(b, events))
      ensures queue == AfterAll(b, events).queue && khms_states.Keys == AfterAll(b, events).records.Keys
      ensures ipsm_edges == AfterAll(b, events).edges
    {
    }

    /** Any run whose paths do not collide: outcomes and books are what the events make of
        them, consistent throughout, up to the point where the fuzzer gives up for want of an
        initial state; the unexpected branch never runs. */
    method Run(events: seq<Event>, ghost b: Books) returns (outcomes: seq<Outcome>)
      requires Valid() && Matches(b) && AllAllowed(b, events) && NoCollision(hash, b.paths + PathsOf(events))
      modifies this
      ensures outcomes == Outcomes(b, events) && Updated(true) !in outcomes
      ensures NoInitialState !in outcomes ==>
                && Valid() && Matches(AfterAll(b, events))
                && |queue| == old(|queue|) + QueuedIn(events)
                && forall i :: 0 <= i < |events| ==> Learned(events[i], khms_states.Keys, ipsm_edges)
    {
      IsInformed(b);
      hide QueuedIn, Learned, Informed, Valid, Matches, NoCollision, AllAllowed, Outcomes, AfterAll, PathsOf;
      outcomes := EventLoop(events, b);
      if NoInitialState !in outcomes {
        WholeRun(b, events);
        FinalBooks(b, events);
      }
    }

    method EventLoop(events: seq<Event>, ghost b: Books) returns (outcomes: seq<Outcome>)
      requires Valid() && Matches(b) && AllAllowed(b, events) && NoCollision(hash, b.paths + PathsOf(events))
      modifies this
      ensures outcomes == Outcomes(b, events) && Updated(true) !in outcomes
      ensures NoInitialState !in outcomes ==> Valid() && Matches(AfterAll(b, events))
    {
      hide Valid, Matches, Allowed, After, OutcomeOf, NoCollision, AllAllowed, Outcomes, AfterAll, PathsOf;
      outcomes := [];
      ghost var cur := b;
      assert events[0..] == events;
      for i := 0 to |events|
        invariant Valid() && Matches(cur) && AllAllowed(cur, events[i..])
        invariant NoCollision(hash, cur.paths + PathsOf(events[i..]))
        invariant Outcomes(b, events) == outcomes + Outcomes(cur, events[i..])
        invariant AfterAll(b, events) == AfterAll(cur, events[i..])
        invariant Updated(true) !in outcomes && NoInitialState !in outcomes
      {
        assert events[i..] == [events[i]] + events[i + 1..];
        Unfolded(cur, events[i], events[i + 1..], outcomes);
        PathsInTurn(hash, cur, events[i], events[i + 1..]);
        var r := Step(events[i], cur);
        outcomes := outcomes + [r];
        if r == NoInitialState {
          return;
        }
        cur := After(cur, events[i]);
      }
      NothingLeft(cur, outcomes);
      assert events[|events|..] == [];
    }
  }

  /** The records after an update that met no collision: the new states, the seed listed
      where it reaches, the counters stepped once per state of the path. */
  ghost predicate AfterUpdate(before: map<nat, StateInfo>, after: map<nat, StateInfo>, q: nat, regions: seq<seq<nat>>,
                              codes: seq<nat>, teaches: bool, targets: set<nat>) {
    && after.Keys == before.Keys + (if teaches then Elements(codes) else {})
    && SeedsListed(before, after, q, {0} + LastStates(regions))
    && CountersUpdated(before, after, Elements(codes), targets)
  }

  ghost predicate CountersUpdated(before: map<nat, StateInfo>, after: map<nat, StateInfo>, visited: set<nat>,
                                  targets: set<nat>) {
    forall s :: s in after ==>
      && after[s].paths == (if s in before then before[s].paths else 0) + (if s in visited then 1 else 0)
      && after[s].paths_discovered == (if s in before then before[s].paths_discovered else 0) +
         (if s in targets then 1 else 0)
  }

  lemma Registered(before: map<nat, StateInfo>, spread: map<nat, StateInfo>, counted: map<nat, StateInfo>,
                   after: map<nat, StateInfo>, q: nat, ids: set<nat>, visited: set<nat>, dry_run: bool, target: nat)
    requires SeedsAdded(before, spread, q, ids) && PathsCounted(spread, counted, visited)
    requires after == if !dry_run && target in counted
                      then counted[target := counted[target].(paths_discovered := counted[target].paths_discovered + 1)]
                      else counted
    ensures after.Keys == before.Keys + ids
    ensures SeedsListed(before, after, q, ids)
    ensures CountersUpdated(before, after, visited, if dry_run then {} else {target})
  {
  }

  lemma AfterBoth(before: map<nat, StateInfo>, learned: map<nat, StateInfo>, after: map<nat, StateInfo>, q: nat,
                  regions: seq<seq<nat>>, codes: seq<nat>, teaches: bool, targets: set<nat>)
    requires learned.Keys == before.Keys + (if teaches then Elements(codes) else {})
    requires InfosKept(before, learned)
    requires 0 in learned && LastStates(regions) <= learned.Keys
    requires after.Keys == learned.Keys + {0} + LastStates(regions)
    requires SeedsListed(learned, after, q, {0} + LastStates(regions))
    requires CountersUpdated(learned, after, Elements(codes), targets)
    ensures after.Keys == learned.Keys
    ensures AfterUpdate(before, after, q, regions, codes, teaches, targets)
  {
  }

  /** Region annotations end in states that are on the whole path. */
  lemma LastStatesReceived(regions: seq<seq<nat>>, response_buf: seq<byte>, response_bytes: seq<nat>, known: set<nat>)
    requires |response_bytes| <= |regions|
    requires forall i :: 0 <= i < |response_bytes| ==> response_bytes[i] <= |response_buf|
    requires forall i :: 0 <= i < |regions| && regions[i] != [] ==> Last(regions[i]) in known
    ensures LastStates(Annotated(regions, response_buf, response_bytes)) <= Elements(Codes(response_buf)) + known
  {
    hide Codes, Annotation;
    var annotated := Annotated(regions, response_buf, response_bytes);
    forall x | x in LastStates(annotated) ensures x in Elements(Codes(response_buf)) + known {
      var i :| 0 <= i < |annotated| && annotated[i] != [] && Last(annotated[i]) == x;
      if i < |response_bytes| {
        AnnotationReceived(response_buf, response_bytes, i);
      }
    }
  }

  lemma AnnotationReceived(response_buf: seq<byte>, response_bytes: seq<nat>, i: nat)
    requires i < |response_bytes| && response_bytes[i] <= |response_buf|
    requires Annotation(response_buf, response_bytes, i) != []
    ensures Last(Annotation(response_buf, response_bytes, i)) in Elements(Codes(response_buf))
  {
    hide Codes;
    CodesOfPrefix(response_buf, response_bytes[i]);
    var codes, all := Codes(response_buf[..response_bytes[i]]), Codes(response_buf);
    assert codes[|codes| - 1] == all[|codes| - 1];
  }

  lemma LastStatesKnown(regions: seq<seq<nat>>, keys: set<nat>)
    requires LastStates(regions) <= keys
    ensures forall i :: 0 <= i < |regions| && regions[i] != [] ==> Last(regions[i]) in keys
  {
    forall i | 0 <= i < |regions| && regions[i] != [] ensures Last(regions[i]) in keys {
      assert Last(regions[i]) in LastStates(regions);
    }
  }

  /** Exactly the states in `ids` have gained the seed q. */
  ghost predicate SeedsListed(before: map<nat, StateInfo>, after: map<nat, StateInfo>, q: nat, ids: set<nat>) {
    forall s, x :: s in after ==>
      (x in after[s].seeds <==> (s in before && x in before[s].seeds) || (x == q && s in ids))
  }

  /** What happens to the bookkeeping over a fuzzing run. */
  datatype Event =
    | Queued(region_count: nat)
    | Ran(q: nat, response_buf: seq<byte>, response_bytes: seq<nat>, dry_run: bool, target_state_id: nat)
    | Fuzzed(target_state_id: nat, q: nat)

  /** No two of these paths have the same hash. */
  ghost predicate NoCollision(hash: seq<nat> -> nat, paths: set<seq<nat>>) {
    forall s, t :: s in paths && t in paths && hash(s) == hash(t) ==> s == t
  }

  // ----- what a run amounts to, without hashes, arrays and indices -----

  /** A state's record, its seeds as a set. */
  datatype Record = Record(seeds: set<nat>, paths: nat, paths_discovered: nat)

  datatype Books = Books(queue: seq<Entry>, records: map<nat, Record>, edges: set<(nat, nat)>,
                         paths: set<seq<nat>>, fuzzed: set<(nat, nat)>)

  ghost predicate Allowed(b: Books, e: Event) {
    match e
    case Queued(_) => true
    case Ran(q, buf, bytes, _, _) =>
      && q < |b.queue| && |bytes| <= |b.queue[q].regions|
      && forall i :: 0 <= i < |bytes| ==> bytes[i] <= |buf|
    case Fuzzed(target, q) => target in b.records && q in b.records[target].seeds
  }

  /** States known after a response with these codes. */
  ghost function Known(b: Books, codes: seq<nat>): set<nat> {
    b.records.Keys + if Trim(codes) !in b.paths && |codes| > 1 then Elements(codes) else {}
  }

  ghost function OutcomeOf(b: Books, e: Event): Outcome {
    if !e.Ran? then Updated(false)
    else if e.response_buf == [] || e.response_bytes == [] then NothingReceived
    else if 0 !in Known(b, Codes(e.response_buf)) then NoInitialState
    else Updated(false)
  }

  function RecordOf(b: Books, s: nat): Record {
    if s in b.records then b.records[s] else Record({}, 0, 0)
  }

  /** The record of state s once seed q has been run: reached or not, on the path or not. */
  ghost function RecordAfter(b: Books, s: nat, q: nat, reached: set<nat>, codes: seq<nat>, targets: set<nat>): Record {
    Record(RecordOf(b, s).seeds + (if s in reached then {q} else {}),
           RecordOf(b, s).paths + (if s in Elements(codes) then 1 else 0),
           RecordOf(b, s).paths_discovered + (if s in targets then 1 else 0))
  }

  ghost function AfterResponse(b: Books, q: nat, regions: seq<seq<nat>>, codes: seq<nat>, targets: set<nat>): Books
    requires q < |b.queue|
  {
    var reached := {0} + LastStates(regions);
    b.(queue := b.queue[q := Entry(regions, |Elements(codes)|)],
       records := map s | s in Known(b, codes) :: RecordAfter(b, s, q, reached, codes, targets),
       edges := b.edges + (if Trim(codes) !in b.paths && |codes| > 1 then Edges(codes) else {}),
       paths := b.paths + {Trim(codes)},
       fuzzed := set p | p in b.fuzzed && !(p.1 == q && p.0 in reached))
  }

  lemma RanIs(b: Books, q: nat, buf: seq<byte>, bytes: seq<nat>, dry_run: bool, target: nat)
    requires Allowed(b, Ran(q, buf, bytes, dry_run, target))
    ensures var e := Ran(q, buf, bytes, dry_run, target);
            if buf == [] || bytes == [] then OutcomeOf(b, e) == NothingReceived && After(b, e) == b
            else
              && OutcomeOf(b, e) == (if 0 in Known(b, Codes(buf)) then Updated(false) else NoInitialState)
              && After(b, e) == AfterResponse(b, q, Annotated(b.queue[q].regions, buf, bytes), Codes(buf),
                                              if dry_run then {} else {target})
  {
    hide Known, AfterResponse, Codes, Annotated;
  }

  lemma FirstIsElement(s: seq<nat>)
    requires s != []
    ensures s[0] in Elements(s)
  {
  }

  lemma KnownIs(b: Books, codes: seq<nat>)
    ensures Known(b, codes) == b.records.Keys + if Trim(codes) !in b.paths && |codes| > 1 then Elements(codes) else {}
  {
  }

  lemma AfterResponseIs(b: Books, q: nat, regions: seq<seq<nat>>, codes: seq<nat>, targets: set<nat>)
    requires q < |b.queue|
    ensures var r := AfterResponse(b, q, regions, codes, targets);
            && r.queue == b.queue[q := Entry(regions, |Elements(codes)|)]
            && r.records.Keys == Known(b, codes) >= b.records.Keys
            && r.edges == b.edges + (if Trim(codes) !in b.paths && |codes| > 1 then Edges(codes) else {})
            && r.paths == b.paths + {Trim(codes)}
            && r.fuzzed == set p | p in b.fuzzed && !(p.1 == q && p.0 in {0} + LastStates(regions))
  {
  }

  ghost function After(b: Books, e: Event): Books
    requires Allowed(b, e)
  {
    match e
    case Queued(region_count) => b.(queue := b.queue + [Entry(seq(region_count, _ => []), 0)])
    case Ran(q, buf, bytes, dry_run, target) =>
      if buf == [] || bytes == [] then b
      else
        AfterResponse(b, q, Annotated(b.queue[q].regions, buf, bytes), Codes(buf), if dry_run then {} else {target})
    case Fuzzed(target, q) => b.(fuzzed := b.fuzzed + {(target, q)})
  }

  ghost predicate AllAllowed(b: Books, events: seq<Event>)
    decreases |events|
  {
    events == [] || (Allowed(b, events[0]) &&
                     (OutcomeOf(b, events[0]) == NoInitialState || AllAllowed(After(b, events[0]), events[1..])))
  }

  ghost function Outcomes(b: Books, events: seq<Event>): seq<Outcome>
    requires AllAllowed(b, events)
    decreases |events|
  {
    if events == [] then []
    else if OutcomeOf(b, events[0]) == NoInitialState then [NoInitialState]
    else [OutcomeOf(b, events[0])] + Outcomes(After(b, events[0]), events[1..])
  }

  ghost function AfterAll(b: Books, events: seq<Event>): Books
    requires AllAllowed(b, events)
    decreases |events|
  {
    if events == [] || OutcomeOf(b, events[0]) == NoInitialState then b
    else AfterAll(After(b, events[0]), events[1..])
  }

  function PathOf(e: Event): set<seq<nat>> {
    if e.Ran? then {Trim(Codes(e.response_buf))} else {}
  }

  function PathsOf(events: seq<Event>): set<seq<nat>> {
    if events == [] then {} else PathOf(events[0]) + PathsOf(events[1..])
  }

  lemma AfterPaths(b: Books, e: Event)
    requires Allowed(b, e)
    ensures After(b, e).paths <= b.paths + PathOf(e)
  {
    hide Codes, Trim, Annotated, LastStates, Known, RecordAfter, Elements, Edges;
  }

  lemma FewerPaths(hash: seq<nat> -> nat, some: set<seq<nat>>, all: set<seq<nat>>)
    requires NoCollision(hash, all) && some <= all
    ensures NoCollision(hash, some)
  {
  }

  lemma PathsInTurn(hash: seq<nat> -> nat, b: Books, e: Event, rest: seq<Event>)
    requires Allowed(b, e) && NoCollision(hash, b.paths + PathsOf([e] + rest))
    ensures NoCollision(hash, b.paths + PathOf(e))
    ensures NoCollision(hash, After(b, e).paths + PathsOf(rest))
  {
    hide Allowed, After, PathOf, NoCollision;
    assert ([e] + rest)[1..] == rest;
    var all := b.paths + PathsOf([e] + rest);
    AfterPaths(b, e);
    FewerPaths(hash, b.paths + PathOf(e), all);
    FewerPaths(hash, After(b, e).paths + PathsOf(rest), all);
  }

  lemma NeverUnexpected(b: Books, e: Event)
    ensures OutcomeOf(b, e) != Updated(true)
  {
  }

  lemma Unfolded(b: Books, e: Event, rest: seq<Event>, sofar: seq<Outcome>)
    requires AllAllowed(b, [e] + rest)
    ensures Allowed(b, e) && OutcomeOf(b, e) != Updated(true)
    ensures if OutcomeOf(b, e) == NoInitialState then
              sofar + Outcomes(b, [e] + rest) == sofar + [NoInitialState] && AfterAll(b, [e] + rest) == b
            else
              && AllAllowed(After(b, e), rest)
              && sofar + Outcomes(b, [e] + rest) == sofar + [OutcomeOf(b, e)] + Outcomes(After(b, e), rest)
              && AfterAll(b, [e] + rest) == AfterAll(After(b, e), rest)
  {
    hide After, Allowed, OutcomeOf;
    NeverUnexpected(b, e);
    assert ([e] + rest)[1..] == rest && ([e] + rest)[0] == e;
  }

  /** Recorded paths miss neither state nor transition. */
  ghost predicate Informed(b: Books) {
    forall t :: t in b.paths && |t| > 1 ==> Elements(t) <= b.records.Keys && Edges(t) <= b.edges
  }

  /** If e is a response that says more than that the server is there, its states and
      transitions are among these. */
  ghost predicate Learned(e: Event, states: set<nat>, edges: set<(nat, nat)>) {
    e.Ran? && e.response_buf != [] && e.response_bytes != [] && |Codes(e.response_buf)| > 1 ==>
      Elements(Codes(e.response_buf)) <= states && Edges(Codes(e.response_buf)) <= edges
  }

  lemma LearnedForGood(e: Event, states: set<nat>, edges: set<(nat, nat)>, states': set<nat>, edges': set<(nat, nat)>)
    requires Learned(e, states, edges) && states <= states' && edges <= edges'
    ensures Learned(e, states', edges')
  {
    hide Codes, Elements, Edges;
  }

  function QueuedIn(events: seq<Event>): nat {
    if events == [] then 0 else (if events[0].Queued? then 1 else 0) + QueuedIn(events[1..])
  }

  lemma OneEvent(b: Books, e: Event)
    requires Allowed(b, e) && Informed(b)
    ensures var r := After(b, e);
            && Informed(r) && b.records.Keys <= r.records.Keys && b.edges <= r.edges
            && |r.queue| == |b.queue| + (if e.Queued? then 1 else 0)
            && Learned(e, r.records.Keys, r.edges)
  {
    hide Codes, Annotated, Elements, Edges, AfterResponse;
    if e.Ran? {
      ResponseTeaches(b, e.q, Annotated(b.queue[e.q].regions, e.response_buf, e.response_bytes), Codes(e.response_buf),
        if e.dry_run then {} else {e.target_state_id});
    }
  }

  lemma ResponseTeaches(b: Books, q: nat, regions: seq<seq<nat>>, codes: seq<nat>, targets: set<nat>)
    requires q < |b.queue| && Informed(b)
    ensures var r := AfterResponse(b, q, regions, codes, targets);
            && Informed(r) && b.records.Keys <= r.records.Keys && b.edges <= r.edges
            && |r.queue| == |b.queue|
            && (|codes| > 1 ==> Elements(codes) <= r.records.Keys && Edges(codes) <= r.edges)
  {
    hide Trim, Elements, Edges, AfterResponse;
    TrimKeepsStates(codes);
    TrimKeepsEdges(codes);
    TrimOfShort(codes);
    BooksAfter(b, q, regions, codes, targets);
  }

  lemma BooksAfter(b: Books, q: nat, regions: seq<seq<nat>>, codes: seq<nat>, targets: set<nat>)
    requires q < |b.queue|
    ensures var r := AfterResponse(b, q, regions, codes, targets);
            && |r.queue| == |b.queue| && r.records.Keys == Known(b, codes) && r.paths == b.paths + {Trim(codes)}
            && r.edges == b.edges + (if Trim(codes) !in b.paths && |codes| > 1 then Edges(codes) else {})
  {
    hide Trim, LastStates, RecordAfter, Elements, Edges, Known;
  }

  /** Does the event bring a response through state s? */
  ghost predicate PassesThrough(e: Event, s: nat) {
    e.Ran? && e.response_buf != [] && e.response_bytes != [] && s in Codes(e.response_buf)
  }

  /** Does it count as a discovery for the target state s? */
  ghost predicate RunsFor(e: Event, s: nat) {
    e.Ran? && e.response_buf != [] && e.response_bytes != [] && !e.dry_run && e.target_state_id == s
  }

  ghost function PassedThrough(events: seq<Event>, s: nat): nat {
    if events == [] then 0 else (if PassesThrough(events[0], s) then 1 else 0) + PassedThrough(events[1..], s)
  }

  ghost function RanFor(events: seq<Event>, s: nat): nat {
    if events == [] then 0 else (if RunsFor(events[0], s) then 1 else 0) + RanFor(events[1..], s)
  }

  lemma OneEventCounts(b: Books, e: Event, s: nat)
    requires Allowed(b, e) && Informed(b) && OutcomeOf(b, e) != NoInitialState
    ensures s in b.records ==> s in After(b, e).records
    ensures RecordOf(After(b, e), s).paths == RecordOf(b, s).paths + if PassesThrough(e, s) then 1 else 0
    ensures s in b.records ==>
              After(b, e).records[s].paths_discovered == b.records[s].paths_discovered + if RunsFor(e, s) then 1 else 0
  {
    hide Codes, Annotated, AfterResponse, Known, Informed;
    if e.Ran? && e.response_buf != [] && e.response_bytes != [] {
      var codes := Codes(e.response_buf);
      var targets := if e.dry_run then {} else {e.target_state_id};
      var regions := Annotated(b.queue[e.q].regions, e.response_buf, e.response_bytes);
      OnlyTheFirstIsZero(e.response_buf);
      CodesAreKnown(b, codes);
      ResponseCounts(b, e.q, regions, codes, targets, s);
    }
  }

  lemma CodesAreKnown(b: Books, codes: seq<nat>)
    requires Informed(b) && codes != [] && codes[0] == 0 && 0 in Known(b, codes)
    ensures b.records.Keys <= Known(b, codes) && Elements(codes) <= Known(b, codes)
  {
    hide Trim;
    TrimKeepsStates(codes);
    TrimOfShort(codes);
    if |codes| == 1 { assert codes == [0]; }
  }

  lemma ResponseCounts(b: Books, q: nat, regions: seq<seq<nat>>, codes: seq<nat>, targets: set<nat>, s: nat)
    requires q < |b.queue| && b.records.Keys <= Known(b, codes) && Elements(codes) <= Known(b, codes)
    ensures var r := AfterResponse(b, q, regions, codes, targets);
            && (s in b.records ==> s in r.records)
            && RecordOf(r, s).paths == RecordOf(b, s).paths + (if s in codes then 1 else 0)
            && (s in b.records ==>
                r.records[s].paths_discovered == b.records[s].paths_discovered + if s in targets then 1 else 0)
  {
    hide Trim, LastStates, Known, Edges;
    assert s in Elements(codes) <==> s in codes;
  }

  /** Does the run of seed q end in state s, at the start or behind some answered message? */
  ghost predicate EndsIn(b: Books, e: Event, s: nat)
    requires Allowed(b, e) && e.Ran?
  {
    var regions := Annotated(b.queue[e.q].regions, e.response_buf, e.response_bytes);
    s == 0 || exists i :: 0 <= i < |regions| && regions[i] != [] && regions[i][|regions[i]| - 1] == s
  }

  /** A run lists its seed under the states it ends in, where it then counts as not fuzzed,
      and changes nothing for other seeds and states. */
  lemma SeedsAndCells(b: Books, e: Event, s: nat, q: nat)
    requires Allowed(b, e) && e.Ran? && e.response_buf != [] && e.response_bytes != [] && s in After(b, e).records
    ensures q in After(b, e).records[s].seeds <==> q in RecordOf(b, s).seeds || (q == e.q && EndsIn(b, e, s))
    ensures (s, q) in After(b, e).fuzzed <==> (s, q) in b.fuzzed && !(q == e.q && EndsIn(b, e, s))
  {
    hide Codes, Annotated, Trim, Known;
    var regions := Annotated(b.queue[e.q].regions, e.response_buf, e.response_bytes);
    assert s in {0} + LastStates(regions) <==> EndsIn(b, e, s);
  }

  /** Over a run: a state's path counter counts the responses that passed through it, its
      discoveries the runs made for it. */
  lemma {:induction false} CountersCount(b: Books, events: seq<Event>, s: nat)
    requires AllAllowed(b, events) && Informed(b) && NoInitialState !in Outcomes(b, events)
    ensures var r := AfterAll(b, events);
            && RecordOf(r, s).paths == RecordOf(b, s).paths + PassedThrough(events, s)
            && (s in b.records ==>
                s in r.records && r.records[s].paths_discovered == b.records[s].paths_discovered + RanFor(events, s))
    decreases |events|
  {
    hide After, Allowed, OutcomeOf, Informed, PassesThrough, RunsFor, RecordOf;
    if events != [] {
      assert Outcomes(b, events)[0] == OutcomeOf(b, events[0]);
      OneEventCounts(b, events[0], s);
      OneEvent(b, events[0]);
      LaterOutcomes(b, events);
      CountersCount(After(b, events[0]), events[1..], s);
      RecordIs(b, s);
    }
  }

  lemma RecordIs(b: Books, s: nat)
    ensures s in b.records ==> RecordOf(b, s) == b.records[s]
  {
  }

  lemma LaterOutcomes(b: Books, events: seq<Event>)
    requires AllAllowed(b, events) && events != [] && NoInitialState !in Outcomes(b, events)
    ensures OutcomeOf(b, events[0]) != NoInitialState && AllAllowed(After(b, events[0]), events[1..])
    ensures NoInitialState !in Outcomes(After(b, events[0]), events[1..])
    ensures AfterAll(b, events) == AfterAll(After(b, events[0]), events[1..])
  {
    hide After, Allowed, OutcomeOf;
    assert Outcomes(b, events)[0] == OutcomeOf(b, events[0]);
    assert Outcomes(b, events)[1..] == Outcomes(After(b, events[0]), events[1..]);
  }

  /** Over a run: each seed queued is there, and each response received has left all its
      states and transitions, whether or not its path was new. */
  lemma {:induction false} WholeRun(b: Books, events: seq<Event>)
    requires AllAllowed(b, events) && Informed(b) && NoInitialState !in Outcomes(b, events)
    ensures var r := AfterAll(b, events);
            && b.records.Keys <= r.records.Keys && b.edges <= r.edges
            && |r.queue| == |b.queue| + QueuedIn(events)
            && forall i :: 0 <= i < |events| ==> Learned(events[i], r.records.Keys, r.edges)
    decreases |events|
  {
    hide After, Allowed, OutcomeOf, Informed, Learned;
    if events != [] {
      var next, r := After(b, events[0]), AfterAll(b, events);
      OneEvent(b, events[0]);
      assert forall o :: o in Outcomes(next, events[1..]) ==> o in Outcomes(b, events);
      WholeRun(next, events[1..]);
      forall i | 0 <= i < |events| ensures Learned(events[i], r.records.Keys, r.edges) {
        if i > 0 {
          assert events[i] == events[1..][i - 1];
        } else {
          LearnedForGood(events[0], next.records.Keys, next.edges, r.records.Keys, r.edges);
        }
      }
    }
  }

  lemma NothingLeft(b: Books, sofar: seq<Outcome>)
    ensures AllAllowed(b, []) && sofar + Outcomes(b, []) == sofar && AfterAll(b, []) == b
  {
  }

  ghost predicate RecordsMatch(infos: map<nat, StateInfo>, b: Books) {
    infos.Keys == b.records.Keys && forall s :: s in infos ==> RecordMatches(infos[s], b.records[s])
  }

  ghost predicate RecordMatches(info: StateInfo, r: Record) {
    Elements(info.seeds) == r.seeds && info.paths == r.paths && info.paths_discovered == r.paths_discovered
  }

  lemma RecordFollows(before: map<nat, StateInfo>, after: map<nat, StateInfo>, s: nat, q: nat, reached: set<nat>,
                      codes: seq<nat>, targets: set<nat>, b: Books)
    requires s in after && (s in before <==> s in b.records) && (s in before ==> RecordMatches(before[s], b.records[s]))
    requires SeedsListed(before, after, q, reached) && CountersUpdated(before, after, Elements(codes), targets)
    ensures RecordMatches(after[s], RecordAfter(b, s, q, reached, codes, targets))
  {
    var r := RecordAfter(b, s, q, reached, codes, targets);
    forall x ensures x in after[s].seeds <==> x in r.seeds {
      if s in before { assert x in before[s].seeds <==> x in Elements(before[s].seeds); }
    }
  }

  lemma RecordsFollow(before: map<nat, StateInfo>, after: map<nat, StateInfo>, q: nat, regions: seq<seq<nat>>,
                      codes: seq<nat>, targets: set<nat>, b: Books)
    requires q < |b.queue|
    requires RecordsMatch(before, b)
    requires AfterUpdate(before, after, q, regions, codes, Trim(codes) !in b.paths && |codes| > 1, targets)
    ensures var r := AfterResponse(b, q, regions, codes, targets);
            RecordsMatch(after, r)
  {
    hide LastStates, Trim, RecordMatches, SeedsListed, CountersUpdated, RecordAfter, Elements;
    forall s | s in after ensures RecordMatches(after[s], AfterResponse(b, q, regions, codes, targets).records[s]) {
      RecordFollows(before, after, s, q, {0} + LastStates(regions), codes, targets, b);
    }
  }

  lemma CellsFollow(before: seq<seq<int>>, after: seq<seq<int>>, ids: seq<nat>, ids': seq<nat>, q: nat,
                    reached: set<nat>, fuzzed: set<(nat, nat)>, fuzzed': set<(nat, nat)>)
    requires CellsReached(before, after, ids', q, reached) && CellsFuzzed(before, ids, fuzzed)
    requires ids <= ids' && NoRepeats(ids')
    requires forall i: nat, j: nat :: i >= |ids| ==> CellAt(before, i, j) != FUZZED
    requires forall p :: p in fuzzed ==> p.0 in ids
    requires fuzzed' == set p | p in fuzzed && !(p.1 == q && p.0 in reached)
    ensures CellsFuzzed(after, ids', fuzzed')
  {
    hide CellAt;
    forall i: nat, j: nat | i < |ids'| ensures CellAt(after, i, j) == FUZZED <==> (ids'[i], j) in fuzzed' {
      if i < |ids| {
        assert ids[i] == ids'[i];
        assert CellAt(before, i, j) == FUZZED <==> (ids[i], j) in fuzzed;
      }
    }
  }

  /** Exactly these seeds have been fuzzed for these states. */
  ghost predicate CellsFuzzed(m: seq<seq<int>>, ids: seq<nat>, fuzzed: set<(nat, nat)>) {
    forall i: nat, q: nat :: i < |ids| ==> (CellAt(m, i, q) == FUZZED <==> (ids[i], q) in fuzzed)
  }

  // ----- two logins -----

  method TwoSeeds(hash: seq<nat> -> nat) returns (t: Tracker)
    ensures fresh(t) && t.Valid() && t.hash == hash
    ensures |t.queue| == 2 && t.queue[0].regions == t.queue[1].regions == [[]]
    ensures t.seen == {} && t.khs_ipsm_paths == {} && t.khms_states == map[]
  {
    t := new Tracker(hash);
    t.AddToQueue(1);
    t.AddToQueue(1);
  }

  /** A session so far: two seeds of one region, and one login seen, ending in code a. */
  method OneLogin(mix: (nat, seq<nat>) -> nat, a: nat) returns (t: Tracker)
    requires 100 <= a <= 999 && a != 220
    ensures fresh(t) && t.Valid() && t.hash == PathHash(mix)
    ensures |t.queue| == 2 && t.queue[1].regions == [[]]
    ensures t.khms_states.Keys == {0, 220, a} && t.seen == {[0, 220, a]}
  {
    hide Codes, AfterUpdate, StatusLines, Trim, PathHash, Annotated, LastStates, Elements, Tracker.Valid;
    var replies := StatusLines([220, a]);
    CodesOfStatusLines([220, a]);
    TwoLines(220, a);
    PathOfTwo(a);
    t := TwoSeeds(PathHash(mix));
    LoginAnnotation(replies, [0, 220, a]);
    var r := t.UpdateStateAwareVariables(0, replies, [10], false, 0);
    AfterUpdateKeys(map[], t.khms_states, 0, [[0, 220, a]], [0, 220, a], true, {0});
  }

  lemma LoginAnnotation(replies: seq<byte>, codes: seq<nat>)
    requires |replies| == 10 && Codes(replies) == codes && codes != []
    ensures Annotated([[]], replies, [10]) == [codes] && LastStates([codes]) == {Last(codes)}
  {
    assert replies[..10] == replies;
    assert Last([codes][0]) in LastStates([codes]);
  }

  lemma AfterUpdateKeys(before: map<nat, StateInfo>, after: map<nat, StateInfo>, q: nat, regions: seq<seq<nat>>,
                        codes: seq<nat>, teaches: bool, targets: set<nat>)
    ensures AfterUpdate(before, after, q, regions, codes, teaches, targets) ==>
              after.Keys == before.Keys + (if teaches then Elements(codes) else {})
  {
  }

  /** So on x86_64 two logins that differ in their last reply, 331 and then 230, run the
      branch that is supposed to be not reachable. */
  method TwoLoginsCollide(mix: (nat, seq<nat>) -> nat) returns (r: Outcome)
    ensures r == Updated(true)
  {
    hide Codes, AfterUpdate, StatusLines, Trim, PathHash, Annotated, Elements, CellsReached, Edges, Tracker.Core,
         Tracker.NodesAgree;
    hide Tracker.Valid;
    var t := OneLogin(mix, 331);
    var replies := StatusLines([220, 230]);
    CodesOfStatusLines([220, 230]);
    TwoLines(220, 230);
    PathOfTwo(230);
    PathOfTwo(331);
    LastCodeIsDropped(mix, [0, 220], 331, 230);
    LoginAnnotation(replies, [0, 220, 230]);
    assert t.FalseHit([0, 220, 230]) by {
      t.SeenIsHashed([0, 220, 331]);
      assert [0, 220, 230][2] != [0, 220, 331][2];
    }
    r := t.UpdateStateAwareVariables(1, replies, [10], false, 0);
  }

  lemma TwoLines(a: nat, b: nat)
    requires 100 <= a <= 999 && 100 <= b <= 999
    ensures |StatusLines([a, b])| == 10
  {
    assert [a, b][..1] == [a] && [a][..0] == [];
    assert StatusLines([a]) == StatusLines([a][..0]) + StatusLine(a);
    assert StatusLines([a, b]) == StatusLines([a, b][..1]) + StatusLine(b);
  }

  lemma PathOfTwo(b: nat)
    requires b != 0 && b != 220
    ensures [0] + [220, b] == [0, 220] + [b] == [0, 220, b]
    ensures Trim([0, 220, b]) == [0, 220, b]
    ensures Elements([0, 220, b]) == {0, 220, b}
  {
    var s := [0, 220, b];
    assert s[..2] == [0, 220] && [0, 220][..1] == [0] && [0][..0] == [];
    assert Trim([0]) == [0] && Trim([0, 220]) == [0, 220];
  }

  /** How region i of a run is annotated: by the codes received up to it, or not at all when
      nothing new was received. */
  function Annotation(response_buf: seq<byte>, response_bytes: seq<nat>, i: nat): seq<nat>
    requires i < |response_bytes| && response_bytes[i] <= |response_buf|
  {
    if response_bytes[i] == 0 || (i > 0 && response_bytes[i] == response_bytes[i - 1]) then []
    else Codes(response_buf[..response_bytes[i]])
  }

  function Annotated(regions: seq<seq<nat>>, response_buf: seq<byte>, response_bytes: seq<nat>): (r: seq<seq<nat>>)
    requires |response_bytes| <= |regions|
    requires forall i :: 0 <= i < |response_bytes| ==> response_bytes[i] <= |response_buf|
    ensures |r| == |regions|
  {
    seq(|regions|, i requires 0 <= i < |regions| =>
      if i < |response_bytes| then Annotation(response_buf, response_bytes, i) else regions[i])
  }

  /** When the byte counts only grow, a region is annotated exactly if its message was
      answered, and then by the codes of all that had been received. */
  lemma AnnotatedIfAnswered(regions: seq<seq<nat>>, response_buf: seq<byte>, response_bytes: seq<nat>, i: nat)
    requires |response_bytes| <= |regions| && i < |regions|
    requires forall k :: 0 <= k < |response_bytes| ==> response_bytes[k] <= |response_buf|
    requires forall k :: 0 < k < |response_bytes| ==> response_bytes[k - 1] <= response_bytes[k]
    ensures var r := Annotated(regions, response_buf, response_bytes)[i];
            if i >= |response_bytes| then r == regions[i]
            else if response_bytes[i] == (if i == 0 then 0 else response_bytes[i - 1]) then r == []
            else r != [] && r == Codes(response_buf[..response_bytes[i]])
  {
    hide Codes;
    if i < |response_bytes| { OnlyTheFirstIsZero(response_buf[..response_bytes[i]]); }
  }

  ghost function LastStates(regions: seq<seq<nat>>): set<nat> {
    set i | 0 <= i < |regions| && regions[i] != [] :: Last(regions[i])
  }

  lemma LastStatesGrow(regions: seq<seq<nat>>, i: nat)
    requires i < |regions|
    ensures regions[i] == [] ==> LastStates(regions[..i + 1]) == LastStates(regions[..i])
    ensures regions[i] != [] ==> LastStates(regions[..i + 1]) == LastStates(regions[..i]) + {Last(regions[i])}
  {
    var a, b := regions[..i], regions[..i + 1];
    forall x | x in LastStates(b) ensures x in LastStates(a) || (regions[i] != [] && x == Last(regions[i])) {
      var k :| 0 <= k < |b| && b[k] != [] && Last(b[k]) == x;
      if k < i { assert a[k] == b[k]; }
    }
    forall x | x in LastStates(a) ensures x in LastStates(b) {
      var k :| 0 <= k < |a| && a[k] != [] && Last(a[k]) == x;
      assert b[k] == a[k];
    }
    assert b[i] == regions[i];
  }

  /** After: the same states and those in `ids`, each with its old seeds, and q added to
      exactly the states in `ids`. */
  ghost predicate SeedsAdded(before: map<nat, StateInfo>, after: map<nat, StateInfo>, q: nat, ids: set<nat>) {
    && after.Keys == before.Keys + ids
    && (forall s, x :: s in after ==>
          (x in after[s].seeds <==> (s in before && x in before[s].seeds) || (x == q && s in ids)))
    && (forall s :: s in after ==>
          after[s].paths == (if s in before then before[s].paths else 0) &&
          after[s].paths_discovered == (if s in before then before[s].paths_discovered else 0))
  }

  lemma OneSeedAdded(before: map<nat, StateInfo>, after: map<nat, StateInfo>, q: nat, id: nat)
    requires var info := if id in before then before[id] else NEW_STATE;
             after == before[id := info.(seeds := info.seeds + [q])]
    ensures SeedsAdded(before, after, q, {id})
  {
  }

  lemma SeedsAddedTrans(before: map<nat, StateInfo>, middle: map<nat, StateInfo>, after: map<nat, StateInfo>, q: nat,
                        ids: set<nat>, more: set<nat>)
    requires SeedsAdded(before, middle, q, ids) && SeedsAdded(middle, after, q, more)
    ensures SeedsAdded(before, after, q, ids + more)
  {
  }

  lemma SeedsAddedKeys(before: map<nat, StateInfo>, after: map<nat, StateInfo>, q: nat, ids: set<nat>)
    requires SeedsAdded(before, after, q, ids)
    ensures after.Keys == before.Keys + ids
  {
  }

  lemma NoLastStates()
    ensures LastStates([]) == {}
  {
  }

  ghost predicate PathsCounted(before: map<nat, StateInfo>, after: map<nat, StateInfo>, ids: set<nat>) {
    && after.Keys == before.Keys
    && forall s :: s in after ==>
         after[s] == before[s].(paths := before[s].paths + if s in ids then 1 else 0)
  }

  /** States known before keep their record; the others start empty. */
  ghost predicate InfosKept(before: map<nat, StateInfo>, after: map<nat, StateInfo>) {
    forall s :: s in after ==> after[s] == if s in before then before[s] else NEW_STATE
  }

  lemma ElementsGrow(s: seq<nat>, i: nat)
    requires 2 <= i <= |s|
    ensures Elements(s[..i]) == Elements(s[..i - 1]) + {s[i - 1]}
    ensures i == 2 ==> Elements(s[..i]) == {s[0], s[1]}
    ensures s[i - 2] in Elements(s[..i - 1]) && s[0] in Elements(s[..i])
  {
    assert s[i - 2] == s[..i - 1][i - 2] && s[0] == s[..i][0];
  }
}
