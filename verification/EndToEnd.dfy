/** From the bytes of the modem to the calls of the issuer. */
module EndToEnd {
  import opened CText
  import opened Classify
  import opened Protocol
  import opened ProtocolRuns
  import opened Dispatching
  import opened ReaderLoop
  import Splitter
  import LineReader

  lemma {:induction false} FinalsConcat(a: seq<string>, b: seq<string>)
    ensures Finals(a + b) == Finals(a) + Finals(b)
  {
    if b == [] {
      assert a + b == a;
    } else {
      var b' := b[..|b| - 1];
      assert a + b == (a + b') + [Last(b)];
      FinalsConcat(a, b');
      SnocSlice(a + b', Last(b));
    }
  }

  lemma FinalsOfPrefix(a: seq<string>, ls: seq<string>)
    requires a <= ls
    ensures Finals(a) <= Finals(ls)
  {
    assert ls == a + ls[|a|..];
    FinalsConcat(a, ls[|a|..]);
  }

  lemma EvenRunsOfPrefix(a: seq<string>, ls: seq<string>)
    requires a <= ls && FinalsBehindEvenRuns(ls)
    ensures FinalsBehindEvenRuns(a)
  {
    forall i | 0 <= i < |a| && IsFinal(a[i]) ensures HeaderRun(a[..i]) % 2 == 0 {
      assert ls[i] == a[i] && ls[..i] == a[..i];
    }
  }

  lemma {:induction false} FinalsInAreFinals(es: seq<Event>)
    ensures FinalsIn(es) == Finals(LinesIn(es))
  {
    if es != [] {
      var p := es[..|es| - 1];
      FinalsInAreFinals(p);
      if Last(es).Line? {
        SnocSlice(LinesIn(p), Last(es).line);
      } else {
        assert LinesIn(es) == LinesIn(p);
      }
    }
  }

  /** A run of the two threads without a timeout, in which the reader has processed what was
      dispatched, so far. */
  ghost predicate FedRun(proxy: bool, es: seq<Event>, s: Sys, ds: seq<Dispatch>)
  {
    Run(Start(None, proxy), es) == Some(s) && LinesIn(es) <= Processed(ds) &&
    OneFinalPerCommand(es) && NoTimeout(s.outcomes)
  }

  /** If all the lines read start the list `ls`, in which no final line stands behind an odd
      number of SMS headers, the k-th call is given the k-th final line of `ls`. */
  lemma CallsGetFinalsOf(proxy: bool, es: seq<Event>, s: Sys, texts: seq<string>, ls: seq<string>)
    requires FedRun(proxy, es, s, DispatchLines(texts)) && texts <= ls && FinalsBehindEvenRuns(ls)
    ensures Paired(Deliveries(s.outcomes), Commands(es), Finals(ls))
  {
    Pairing(proxy, es, s);
    FinalsInAreFinals(es);
    FinalsOfPrefix(LinesIn(es), Processed(DispatchLines(texts)));
    EvenRunsOfPrefix(texts, ls);
    FinalsSurviveDispatch(texts);
    FinalsOfPrefix(texts, ls);
  }

  /** Bytes to calls.  The reader runs on a descriptor that delivers a good stream in reads of
      any size, interrupted, cut short or failing; the issuer makes any calls.  Whatever the
      interleaving, if no printed final line stands behind an odd number of SMS headers and
      nothing times out, the k-th call is given the k-th final line the modem printed. */
  method ReaderFeedsCalls(r: LineReader.Reader) returns (dispatched: seq<Dispatch>)
    requires r.Valid() && GoodStream(r.Stream()) && FinalsBehindEvenRuns(Splitter.Lines(r.Stream()))
    modifies r, r.buf, r.port
    ensures forall proxy: bool, es: seq<Event>, s: Sys :: FedRun(proxy, es, s, dispatched) ==>
              Paired(Deliveries(s.outcomes), Commands(es), Finals(Splitter.Lines(old(r.Stream()))))
  {
    ghost var ls, gs := Splitter.Lines(r.Stream()), [];
    dispatched, gs := Loop(r);
    forall proxy: bool, es: seq<Event>, s: Sys | FedRun(proxy, es, s, dispatched)
      ensures Paired(Deliveries(s.outcomes), Commands(es), Finals(ls))
    {
      CallsGetFinalsOf(proxy, es, s, TextsOf(gs), ls);
    }
  }
}
