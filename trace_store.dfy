/** The JSON store of mal_trace_app.py, `{"works": {...}, "traces": [...]}`,
    as an object whose pages update it in place. `works` is a dictionary, so
    its insertion order is kept beside it in `workOrder`. Reading and writing
    the file itself is not modelled: the store starts as the empty default
    `load_db` returns when no file exists. */
module TraceStore {
  import opened Text
  import opened Seqs
  import opened TraceRecords
  import opened TraceDashboard

  class TraceDb {
    var works: map<string, Work>
    var workOrder: seq<string>
    var traces: seq<Trace>

    /** The dictionary and its key order agree, and every stored trace
        belongs to a stored work (the responder page only offers stored
        works, and works are never removed). */
    ghost predicate Valid()
      reads this
    {
      && (forall k :: k in works <==> k in workOrder)
      && Distinct(workOrder)
      && (forall i :: 0 <= i < |traces| ==> traces[i].workId in works)
    }

    constructor ()
      ensures Valid()
      ensures works == map[] && workOrder == [] && traces == []
    {
      works, workOrder, traces := map[], [], [];
    }

    /** `db["works"].values()`, in insertion order. */
    function WorkList(): (ws: seq<Work>)
      reads this
      requires Valid()
      ensures |ws| == |workOrder|
      ensures forall i :: 0 <= i < |ws| ==> ws[i] == works[workOrder[i]]
      ensures forall w :: w in ws <==> w in works.Values
    {
      var ws := seq(|workOrder|, i requires 0 <= i < |workOrder| && workOrder[i] in works reads this => works[workOrder[i]]);
      assert forall w :: w in works.Values ==> w in ws by {
        forall w | w in works.Values ensures w in ws {
          var k :| k in works && works[k] == w;
          var i :| 0 <= i < |workOrder| && workOrder[i] == k;
          assert ws[i] == w;
        }
      }
      ws
    }

    /** The works the dashboard offers for `creator`: the creator's own, or
        all of them when the creator has none. */
    function DashboardWorks(creator: string): (ws: seq<Work>)
      reads this
      requires Valid()
      ensures forall w :: w in ws ==> w in works.Values
      ensures (exists w :: w in works.Values && w.creator == creator) ==>
                forall w :: w in ws <==> w in works.Values && w.creator == creator
      ensures (forall w :: w in works.Values ==> w.creator != creator) ==>
                forall w :: w in ws <==> w in works.Values
      ensures works != map[] ==> ws != []
    {
      assert works != map[] ==> WorkList() != [] by {
        if works != map[] {
          var k :| k in works;
          assert works[k] in works.Values;
        }
      }
      WorksForCreator(WorkList(), creator)
    }

    /** The Upload button: refused without an audio file or with a blank
        title; otherwise the work is stored under `workId` (a fresh id in
        the source, so normally a new key). */
    method Upload(hasAudio: bool, workId: string, audioName: string, title: string,
                  creator: string, note: string, now: int) returns (ok: bool)
      requires Valid()
      modifies this
      ensures Valid()
      ensures ok <==> hasAudio && Strip(title) != []
      ensures ok ==> works == old(works)[workId := NewWork(workId, audioName, title, creator, note, now)]
      ensures ok ==> workOrder == if workId in old(works) then old(workOrder) else old(workOrder) + [workId]
      ensures !ok ==> works == old(works) && workOrder == old(workOrder)
      ensures traces == old(traces)
    {
      ok := hasAudio && Strip(title) != [];
      if ok {
        if workId !in works {
          DistinctAppend(workOrder, workId);
          workOrder := workOrder + [workId];
        }
        works := works[workId := NewWork(workId, audioName, title, creator, note, now)];
      }
    }

    /** The Send Trace button: one record appended, nothing else changes. */
    method SendTrace(traceId: string, workId: string, responder: string, word: string,
                     density: real, color: string, reverb: int, dwell: real,
                     memo: string, now: int)
      requires Valid()
      requires workId in works
      modifies this
      ensures Valid()
      ensures traces == old(traces) + [NewTrace(traceId, workId, responder, word, density,
                                                color, reverb, dwell, memo, now)]
      ensures works == old(works) && workOrder == old(workOrder)
      ensures forall id :: TracesOfWork(traces, id)
                == TracesOfWork(old(traces), id) + (if id == workId then [traces[|traces| - 1]] else [])
    {
      var t := NewTrace(traceId, workId, responder, word, density, color, reverb, dwell, memo, now);
      forall id ensures TracesOfWork(traces + [t], id)
                        == TracesOfWork(traces, id) + (if id == workId then [t] else []) {
        TracesOfWorkAppend(traces, t, id);
      }
      traces := traces + [t];
    }

    /** The dashboard of the selected work: its traces grouped by the
        `setdefault` loop, then ranked, carded and listed. */
    method Dashboard(workId: string) returns (view: TraceDashboard.Dashboard)
      ensures view == DashboardOf(TracesOfWork(traces, workId))
    {
      var ts := TracesOfWork(traces, workId);
      var groups, order := GroupByKey(ts);
      KeyOrderEmpty(ts);
      if order == [] {
        view := NoTraces;
      } else {
        ItemsOfGrouping(ts, groups, order);
        TopGroupsOfTraces(ts);
        view := Clusters(Cards(TopGroups(Items(groups, order))), SortDesc(ts, CreatedAt));
      }
    }
  }
}
