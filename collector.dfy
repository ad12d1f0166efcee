/** `fetch_data_parallel`: every probe is submitted to a thread pool and the
    results dictionary is then filled key by key, each entry holding the
    probe's value or, when the probe raised, "Error: " and the exception's
    message. The pool is modelled by the outcome each future settles to;
    the collection loop is a sequential fold over those outcomes. */
module Collector {

  /** How a future settles: `future.result()` returns the probe's value or
      re-raises its exception, whose `str(e)` is `message`. */
  datatype Outcome = Returned(value: string) | Raised(message: string)

  const ErrorPrefix := "Error: "

  /** The dictionary entry for one settled future (floppyfetch.py:197-200): the
      value itself, or "Error: " followed by the exception's message. */
  function Settle(o: Outcome): (entry: string)
    ensures o.Returned? ==> entry == o.value
    ensures o.Raised? ==> |entry| == |ErrorPrefix| + |o.message|
                          && entry[..|ErrorPrefix|] == ErrorPrefix && entry[|ErrorPrefix|..] == o.message
  {
    match o
    case Returned(v) => v
    case Raised(m) => ErrorPrefix + m
  }

  /** Outcomes of the same kind settle to the same entry only when they are
      equal; across kinds, a value that itself reads "Error: " and a message
      is indistinguishable from that exception. */
  lemma SettleDistinguishes(o1: Outcome, o2: Outcome)
    ensures o1.Raised? == o2.Raised? ==> (Settle(o1) == Settle(o2) <==> o1 == o2)
    ensures o1.Returned? && o2.Raised? ==> (Settle(o1) == Settle(o2) <==> o1.value == ErrorPrefix + o2.message)
  {
    if o1.Raised? && o2.Raised? && Settle(o1) == Settle(o2) {
      assert o1.message == Settle(o1)[|ErrorPrefix|..];
    }
  }

  /** The futures dictionary as its items, in insertion order. */
  type Futures = seq<(string, Outcome)>

  /** No key occurs twice, as in a dictionary's items. */
  predicate DistinctKeys(fs: Futures) {
    forall i, j :: 0 <= i < j < |fs| ==> fs[i].0 != fs[j].0
  }

  function KeysOf(fs: Futures): set<string> {
    set i | 0 <= i < |fs| :: fs[i].0
  }

  /** The dictionary after the loop of floppyfetch.py:196-200 has run over `fs`:
      each item in turn stores its settled entry under its key, so it holds
      exactly the futures' keys. */
  function Collected(fs: Futures): (results: map<string, string>)
    ensures results.Keys == KeysOf(fs)
  {
    if |fs| == 0 then map[]
    else
      var (key, outcome) := fs[|fs| - 1];
      KeysOfInit(fs);
      Collected(fs[..|fs| - 1])[key := Settle(outcome)]
  }

  lemma KeysOfInit(fs: Futures)
    requires |fs| > 0
    ensures KeysOf(fs) == KeysOf(fs[..|fs| - 1]) + {fs[|fs| - 1].0}
  {
    var init := fs[..|fs| - 1];
    forall k | k in KeysOf(fs) ensures k in KeysOf(init) + {fs[|fs| - 1].0} {
      var i :| 0 <= i < |fs| && fs[i].0 == k;
      if i < |fs| - 1 {
        assert init[i].0 == k;
      }
    }
    forall k | k in KeysOf(init) ensures k in KeysOf(fs) {
      var i :| 0 <= i < |init| && init[i].0 == k;
      assert fs[i].0 == k;
    }
  }

  /** floppyfetch.py:195-200: the `results` dictionary filled in place, item by item. */
  method CollectResults(futures: Futures) returns (results: map<string, string>)
    ensures results == Collected(futures)
  {
    results := map[];
    var i := 0;
    while i < |futures|
      invariant 0 <= i <= |futures|
      invariant results == Collected(futures[..i])
    {
      var (key, outcome) := futures[i];
      results := results[key := Settle(outcome)];
      assert futures[..i + 1][..i] == futures[..i];
      i := i + 1;
    }
    assert futures[..|futures|] == futures;
  }

  /** With distinct keys, each key holds its own future's settled entry. */
  lemma {:induction false} CollectedAt(fs: Futures, i: int)
    requires DistinctKeys(fs) && 0 <= i < |fs|
    ensures fs[i].0 in Collected(fs) && Collected(fs)[fs[i].0] == Settle(fs[i].1)
  {
    var init := fs[..|fs| - 1];
    if i < |fs| - 1 {
      assert DistinctKeys(init) by {
        forall a, b | 0 <= a < b < |init| ensures init[a].0 != init[b].0 {
          assert init[a] == fs[a] && init[b] == fs[b];
        }
      }
      CollectedAt(init, i);
      assert init[i] == fs[i];
      assert fs[i].0 != fs[|fs| - 1].0;
    }
  }

  /** A probe that raises changes only its own entry, to "Error: " and its
      message; every key stays present and every other entry keeps its
      probe's value. */
  lemma FailureIsolation(fs: Futures, j: int, message: string)
    requires DistinctKeys(fs) && 0 <= j < |fs|
    ensures var gs := fs[j := (fs[j].0, Raised(message))];
            && Collected(gs).Keys == Collected(fs).Keys
            && fs[j].0 in Collected(gs) && Collected(gs)[fs[j].0] == ErrorPrefix + message
            && forall k :: k in Collected(fs) && k != fs[j].0 ==> Collected(gs)[k] == Collected(fs)[k]
  {
    var gs := fs[j := (fs[j].0, Raised(message))];
    assert DistinctKeys(gs) by {
      forall a, b | 0 <= a < b < |gs| ensures gs[a].0 != gs[b].0 {
        assert gs[a].0 == fs[a].0 && gs[b].0 == fs[b].0;
      }
    }
    assert KeysOf(gs) == KeysOf(fs) by {
      forall k ensures k in KeysOf(gs) <==> k in KeysOf(fs) {
        if k in KeysOf(fs) {
          var i :| 0 <= i < |fs| && fs[i].0 == k;
          assert gs[i].0 == k;
        }
        if k in KeysOf(gs) {
          var i :| 0 <= i < |gs| && gs[i].0 == k;
          assert fs[i].0 == k;
        }
      }
    }
    CollectedAt(gs, j);
    forall k | k in Collected(fs) && k != fs[j].0
      ensures Collected(gs)[k] == Collected(fs)[k]
    {
      var i :| 0 <= i < |fs| && fs[i].0 == k;
      CollectedAt(fs, i);
      CollectedAt(gs, i);
    }
  }

  /** The settled outcome of every probe (floppyfetch.py:182-192). */
  datatype Probes = Probes(
    osInfo: Outcome, host: Outcome, kernel: Outcome, uptime: Outcome,
    packages: Outcome, shell: Outcome, resolution: Outcome, de: Outcome,
    cpu: Outcome, gpu: Outcome, memory: Outcome)

  /** The eleven result keys, in the order the futures are submitted. */
  const ResultKeys: seq<string> :=
    ["os_info", "host", "kernel", "uptime", "packages", "shell",
     "resolution", "de", "cpu", "gpu", "memory"]

  /** floppyfetch.py:181-193: the futures dictionary. */
  function FuturesOf(p: Probes): (fs: Futures)
    ensures |fs| == |ResultKeys| && forall i :: 0 <= i < |fs| ==> fs[i].0 == ResultKeys[i]
  {
    [("os_info", p.osInfo), ("host", p.host), ("kernel", p.kernel),
     ("uptime", p.uptime), ("packages", p.packages), ("shell", p.shell),
     ("resolution", p.resolution), ("de", p.de), ("cpu", p.cpu),
     ("gpu", p.gpu), ("memory", p.memory)]
  }

  /** The position of a result key in `ResultKeys`. */
  function KeyPosition(k: string): int {
    if k == "os_info" then 0 else if k == "host" then 1 else if k == "kernel" then 2
    else if k == "uptime" then 3 else if k == "packages" then 4 else if k == "shell" then 5
    else if k == "resolution" then 6 else if k == "de" then 7 else if k == "cpu" then 8
    else if k == "gpu" then 9 else if k == "memory" then 10 else -1
  }

  /** The eleven keys are pairwise distinct. */
  lemma ResultKeysDistinct(p: Probes)
    ensures DistinctKeys(FuturesOf(p))
  {
    forall i | 0 <= i < |ResultKeys| ensures KeyPosition(ResultKeys[i]) == i {
      if i == 0 {} else if i == 1 {} else if i == 2 {} else if i == 3 {} else if i == 4 {}
      else if i == 5 {} else if i == 6 {} else if i == 7 {} else if i == 8 {} else if i == 9 {}
    }
  }

  lemma FuturesKeys(p: Probes)
    ensures KeysOf(FuturesOf(p)) == set k | k in ResultKeys
  {
    var fs := FuturesOf(p);
    forall k | k in ResultKeys ensures k in KeysOf(fs) {
      var i :| 0 <= i < |ResultKeys| && ResultKeys[i] == k;
      assert fs[i].0 == k;
    }
  }

  /** The collected futures: every key present, each with its own probe's entry. */
  lemma CollectedProbes(p: Probes)
    ensures Collected(FuturesOf(p)).Keys == set k | k in ResultKeys
    ensures forall i :: 0 <= i < |ResultKeys| ==>
              Collected(FuturesOf(p))[ResultKeys[i]] == Settle(FuturesOf(p)[i].1)
  {
    var fs := FuturesOf(p);
    ResultKeysDistinct(p);
    FuturesKeys(p);
    forall i | 0 <= i < |fs| ensures Collected(fs)[ResultKeys[i]] == Settle(fs[i].1) {
      CollectedAt(fs, i);
    }
  }

  /** `results[key]` is the settled entry of `o`. */
  predicate HoldsEntry(results: map<string, string>, key: string, o: Outcome) {
    key in results && results[key] == Settle(o)
  }

  /** `fetch_data_parallel()`: exactly the eleven keys, each holding its own
      probe's value or its error text. */
  method FetchData(p: Probes) returns (results: map<string, string>)
    ensures results.Keys == set k | k in ResultKeys
    ensures HoldsEntry(results, "os_info", p.osInfo) && HoldsEntry(results, "host", p.host)
    ensures HoldsEntry(results, "kernel", p.kernel) && HoldsEntry(results, "uptime", p.uptime)
    ensures HoldsEntry(results, "packages", p.packages) && HoldsEntry(results, "shell", p.shell)
    ensures HoldsEntry(results, "resolution", p.resolution) && HoldsEntry(results, "de", p.de)
    ensures HoldsEntry(results, "cpu", p.cpu) && HoldsEntry(results, "gpu", p.gpu)
    ensures HoldsEntry(results, "memory", p.memory)
  {
    results := CollectResults(FuturesOf(p));
    FuturesKeys(p);
    CollectedEntry(p, 0); CollectedEntry(p, 1); CollectedEntry(p, 2); CollectedEntry(p, 3);
    CollectedEntry(p, 4); CollectedEntry(p, 5); CollectedEntry(p, 6); CollectedEntry(p, 7);
    CollectedEntry(p, 8); CollectedEntry(p, 9); CollectedEntry(p, 10);
  }

  /** The entry of the `i`-th result key. */
  lemma CollectedEntry(p: Probes, i: int)
    requires 0 <= i < |ResultKeys|
    ensures HoldsEntry(Collected(FuturesOf(p)), ResultKeys[i], FuturesOf(p)[i].1)
  {
    ResultKeysDistinct(p);
    CollectedAt(FuturesOf(p), i);
  }
}
