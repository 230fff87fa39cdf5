/** The records of the trace application (mal_trace_app.py): works uploaded
    by a creator, traces sent by responders, the cluster key that groups
    traces, and the two filters the dashboard applies to the store.
    Clock readings are opaque integer ticks; `density` and `dwell_sec` are
    reals. */
module TraceRecords {
  import opened Text
  import opened Seqs

  /** The one-word vocabulary offered by the responder form. */
  const Words: seq<string> := ["沈む", "浮遊", "緊張", "空白", "澄む", "違和感", "温かい", "冷たい"]

  /** The colour swatches offered by the responder form. */
  const Colors: seq<string> := ["#111111", "#6B7280", "#F59E0B", "#10B981", "#3B82F6", "#EC4899"]

  /** The directory audio uploads are written to. */
  const DataDir: string := "data"

  datatype Work = Work(
    workId: string,
    title: string,
    creator: string,
    audioPath: string,
    note: string,
    createdAt: int)

  datatype Trace = Trace(
    traceId: string,
    workId: string,
    responder: string,
    word: string,
    density: real,
    color: string,
    reverb: int,
    dwellSec: real,
    sectionMemo: string,
    createdAt: int)

  /** What the responder form's widgets can produce: a word and a colour
      from their lists, a reverb of 0, 1 or 2, a density slider in [0, 1]. */
  predicate FromForm(t: Trace): (b: bool)
    ensures b ==> '|' !in t.word
  {
    assert forall w :: w in Words ==> '|' !in w;
    && t.word in Words
    && t.color in Colors
    && 0 <= t.reverb <= 2
    && 0.0 <= t.density <= 1.0
  }

  /** `f"{t.word}|rv{t.reverb}"`: traces are grouped by word and reverb. */
  function ClusterKey(t: Trace): string {
    t.word + "|rv" + IntToDecimal(t.reverb)
  }

  /** How a key reads: the word, then `|rv`, then the reverb's decimal
      digits, with a `-` exactly when the reverb is negative. */
  lemma ClusterKeyLayout(t: Trace)
    ensures var k, n := ClusterKey(t), |t.word|;
            && n + 3 < |k|
            && k[..n] == t.word && k[n..n + 3] == "|rv" && k[n + 3..] == IntToDecimal(t.reverb)
            && (k[n + 3] == '-' <==> t.reverb < 0)
  {
  }

  /** The key depends on the word and the reverb only, and tells them apart
      whenever the words contain no `|`. */
  lemma ClusterKeyInjective(a: Trace, b: Trace)
    requires '|' !in a.word && '|' !in b.word
    ensures ClusterKey(a) == ClusterKey(b) <==> a.word == b.word && a.reverb == b.reverb
  {
    if ClusterKey(a) == ClusterKey(b) {
      var ka, kb := ClusterKey(a), ClusterKey(b);
      var na, nb := |a.word|, |b.word|;
      ClusterKeyLayout(a);
      ClusterKeyLayout(b);
      assert ka[na] == '|' && kb[nb] == '|' by {
        assert ka[na] == ka[na..na + 3][0];
        assert kb[nb] == kb[nb..nb + 3][0];
      }
      FirstBar(ka, a.word, b.word);
      assert IntToDecimal(a.reverb) == ka[na + 3..] == kb[nb + 3..] == IntToDecimal(b.reverb);
      IntToDecimalInjective(a.reverb, b.reverb);
    }
  }

  /** Two bar-free prefixes of `k` that are both followed by `|` are the
      same prefix. */
  lemma FirstBar(k: string, u: string, w: string)
    requires '|' !in u && '|' !in w
    requires |u| < |k| && |w| < |k| && k[|u|] == '|' && k[|w|] == '|'
    requires k[..|u|] == u && k[..|w|] == w
    ensures u == w
  {
    assert forall i :: 0 <= i < |u| ==> k[i] == u[i] && u[i] in u;
    assert forall i :: 0 <= i < |w| ==> k[i] == w[i] && w[i] in w;
    assert |u| == |w|;
  }

  /** For traces from the form the key is exactly the (word, reverb) pair. */
  lemma ClusterKeyOnWords(a: Trace, b: Trace)
    requires a.word in Words && b.word in Words
    ensures ClusterKey(a) == ClusterKey(b) <==> a.word == b.word && a.reverb == b.reverb
  {
    assert forall w :: w in Words ==> '|' !in w;
    ClusterKeyInjective(a, b);
  }

  /** The `Work` record the upload form stores (audio written to
      `data/<work_id>_<file name>`). */
  function NewWork(workId: string, audioName: string, title: string, creator: string,
                   note: string, now: int): (w: Work)
    ensures w.workId == workId && w.createdAt == now
    ensures w.title == Strip(title) && w.note == Strip(note)
    ensures w.creator != [] && IsStripped(w.creator)
    ensures Strip(creator) != [] ==> w.creator == Strip(creator)
    ensures Strip(creator) == [] ==> w.creator == "Unknown"
    ensures w.audioPath == DataDir + "/" + workId + "_" + audioName
  {
    Work(workId, Strip(title), OrDefault(Strip(creator), "Unknown"),
         DataDir + "/" + workId + "_" + audioName, Strip(note), now)
  }

  /** The `Trace` record the responder form sends. */
  function NewTrace(traceId: string, workId: string, responder: string, word: string,
                    density: real, color: string, reverb: int, dwell: real,
                    memo: string, now: int): (t: Trace)
    ensures t.traceId == traceId && t.workId == workId && t.createdAt == now
    ensures t.word == word && t.density == density && t.color == color && t.reverb == reverb
    ensures t.dwellSec == dwell && t.sectionMemo == Strip(memo)
    ensures t.responder != [] && IsStripped(t.responder)
    ensures Strip(responder) != [] ==> t.responder == Strip(responder)
    ensures Strip(responder) == [] ==> t.responder == "Anonymous"
    ensures word in Words && color in Colors && 0 <= reverb <= 2 && 0.0 <= density <= 1.0
            ==> FromForm(t)
  {
    Trace(traceId, workId, OrDefault(Strip(responder), "Anonymous"), word, density,
          color, reverb, dwell, Strip(memo), now)
  }

  /** `[t for t in db["traces"] if t["work_id"] == work_id]`. */
  function TracesOfWork(traces: seq<Trace>, workId: string): (r: seq<Trace>)
    ensures |r| <= |traces|
    ensures forall t :: t in r ==> t in traces && t.workId == workId
  {
    Filter(traces, (t: Trace) => t.workId == workId)
  }

  /** The dashboard sees exactly the stored traces of the work. */
  lemma TracesOfWorkExact(traces: seq<Trace>, workId: string, t: Trace)
    ensures t in TracesOfWork(traces, workId) <==> t in traces && t.workId == workId
  {
    if t in traces && t.workId == workId {
      FilterKeeps(traces, (t: Trace) => t.workId == workId, t);
    }
  }

  /** Storing one more trace adds it to its own work's list, at the end, and
      leaves every other work's list as it was. */
  lemma TracesOfWorkAppend(traces: seq<Trace>, t: Trace, workId: string)
    ensures TracesOfWork(traces + [t], workId)
         == TracesOfWork(traces, workId) + (if t.workId == workId then [t] else [])
  {
    FilterAppend(traces, [t], (t: Trace) => t.workId == workId);
  }

  /** `[w for w in works if w["creator"] == creator]`. */
  function WorksByCreator(works: seq<Work>, creator: string): (r: seq<Work>)
    ensures |r| <= |works|
    ensures forall w :: w in r ==> w in works && w.creator == creator
  {
    Filter(works, (w: Work) => w.creator == creator)
  }

  /** `[...creator's works...] or list(db["works"].values())`: the creator's
      works, or every work when the creator has none. */
  function WorksForCreator(works: seq<Work>, creator: string): (r: seq<Work>)
    ensures forall w :: w in r ==> w in works
    ensures (exists w :: w in works && w.creator == creator) ==>
              forall w :: w in r <==> w in works && w.creator == creator
    ensures (forall w :: w in works ==> w.creator != creator) ==> r == works
    ensures works != [] ==> r != []
  {
    var mine := WorksByCreator(works, creator);
    FilterEmpty(works, (w: Work) => w.creator == creator);
    forall w | w in works && w.creator == creator
      ensures w in mine
    {
      FilterKeeps(works, (w: Work) => w.creator == creator, w);
    }
    if mine != [] then mine else works
  }
}
