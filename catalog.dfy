/** The holiday catalogue as values: what one ingestion adds to it and which
    entry the "closest holiday" search picks.  The class in module Holidei
    updates its state in place and is specified by these functions. */
module Catalog {
  import opened Wrappers
  import opened Dates

  /** A stored holiday: its name and its date. */
  datatype Holiday = Holiday(name: string, date: Tm)

  /** One record of a fetched year, already parsed: date, name and whether
      the service flags it as a national holiday. */
  datatype Entry = Entry(date: Tm, name: string, isNational: bool)

  /** The outcome of one fetch: the connection could not be opened or the
      status was not OK, or an OK body holding the records in arrival order. */
  datatype Response = Failed | Ok(items: seq<Entry>)

  /** The cached result before any search succeeded: zero-initialised. */
  const Unset: Holiday := Holiday("", Tm(0, 0, 0))

  function AsHoliday(e: Entry): Holiday
  {
    Holiday(e.name, e.date)
  }

  /** The records a response delivers; none when the fetch failed. */
  function Arrived(r: Response): seq<Entry>
  {
    match r
    case Failed => []
    case Ok(items) => items
  }

  /** The national records, as holidays, in arrival order. */
  function National(s: seq<Entry>): seq<Holiday>
  {
    if s == [] then []
    else National(s[..|s| - 1]) + (if s[|s| - 1].isNational then [AsHoliday(s[|s| - 1])] else [])
  }

  function Reverse<T>(s: seq<T>): seq<T>
  {
    if s == [] then [] else [s[|s| - 1]] + Reverse(s[..|s| - 1])
  }

  /** The catalogue after ingesting `r` into `hs`: every national record is
      put at the front in turn, so they end up in reverse arrival order
      ahead of the old catalogue. */
  function Ingested(hs: seq<Holiday>, r: Response): seq<Holiday>
  {
    Reverse(National(Arrived(r))) + hs
  }

  /** The candidate test of the search, as written: a candidate is skipped
      when the reference month is later than its month, and also when the
      reference day is later than its day, whatever the months are. */
  predicate Qualifies(ref: Tm, h: Holiday)
  {
    !(ref.mon > h.date.mon) && !(ref.mday > h.date.mday)
  }

  /** The first holiday of `hs`, in stored order, that passes the test. */
  function FirstQualifying(ref: Tm, hs: seq<Holiday>): Option<Holiday>
  {
    if hs == [] then None
    else if Qualifies(ref, hs[0]) then Some(hs[0])
    else FirstQualifying(ref, hs[1..])
  }

  // ---------------------------------------------------------------- ingestion

  lemma {:induction false} ReverseAt<T>(s: seq<T>, k: int)
    requires 0 <= k < |s|
    ensures |Reverse(s)| == |s| && Reverse(s)[k] == s[|s| - 1 - k]
    decreases |s|
  {
    if k > 0 {
      ReverseAt(s[..|s| - 1], k - 1);
    } else {
      ReverseLength(s[..|s| - 1]);
    }
  }

  lemma {:induction false} ReverseLength<T>(s: seq<T>)
    ensures |Reverse(s)| == |s|
    decreases |s|
  {
    if s != [] {
      ReverseLength(s[..|s| - 1]);
    }
  }

  lemma {:induction false} ReverseMembers<T>(s: seq<T>, x: T)
    ensures x in Reverse(s) <==> x in s
    decreases |s|
  {
    if s != [] {
      ReverseMembers(s[..|s| - 1], x);
      assert s == s[..|s| - 1] + [s[|s| - 1]];
    }
  }

  lemma {:induction false} ReverseAppend<T>(a: seq<T>, b: seq<T>)
    ensures Reverse(a + b) == Reverse(b) + Reverse(a)
    decreases |b|
  {
    if b == [] {
      assert a + b == a;
    } else {
      var b' := b[..|b| - 1];
      assert (a + b)[..|a + b| - 1] == a + b';
      ReverseAppend(a, b');
    }
  }

  lemma {:induction false} NationalAppend(a: seq<Entry>, b: seq<Entry>)
    ensures National(a + b) == National(a) + National(b)
    decreases |b|
  {
    if b == [] {
      assert a + b == a;
    } else {
      var b' := b[..|b| - 1];
      assert (a + b)[..|a + b| - 1] == a + b';
      NationalAppend(a, b');
    }
  }

  /** Only national records are ever stored, and every national record is. */
  lemma {:induction false} NationalMembers(s: seq<Entry>, h: Holiday)
    ensures h in National(s) <==> exists e :: e in s && e.isNational && AsHoliday(e) == h
    decreases |s|
  {
    if s != [] {
      var s' := s[..|s| - 1];
      NationalMembers(s', h);
      assert s == s' + [s[|s| - 1]];
    }
  }

  /** A batch adds nothing exactly when it holds no national record. */
  lemma {:induction false} NationalEmpty(s: seq<Entry>)
    ensures National(s) == [] <==> forall i :: 0 <= i < |s| ==> !s[i].isNational
    decreases |s|
  {
    if s != [] {
      var s' := s[..|s| - 1];
      NationalEmpty(s');
      assert forall i :: 0 <= i < |s'| ==> s'[i] == s[i];
    }
  }

  /** A batch's national records are at most as many as its records, and as
      many exactly when every record is national. */
  lemma {:induction false} NationalLength(s: seq<Entry>)
    ensures |National(s)| <= |s|
    ensures |National(s)| == |s| <==> forall i :: 0 <= i < |s| ==> s[i].isNational
    decreases |s|
  {
    if s != [] {
      var s' := s[..|s| - 1];
      NationalLength(s');
      assert forall i :: 0 <= i < |s'| ==> s'[i] == s[i];
    }
  }

  /** One step of ingestion: taking one more record of the batch either
      leaves the catalogue as it was or puts that record's holiday in front. */
  lemma PushFrontStep(hs: seq<Holiday>, items: seq<Entry>, i: int)
    requires 0 <= i < |items|
    ensures Ingested(hs, Ok(items[..i + 1])) ==
            if items[i].isNational then [AsHoliday(items[i])] + Ingested(hs, Ok(items[..i]))
            else Ingested(hs, Ok(items[..i]))
  {
    var before := National(items[..i]);
    assert items[..i + 1][..i] == items[..i];
    if items[i].isNational {
      assert (before + [AsHoliday(items[i])])[..|before|] == before;
      assert Reverse(National(items[..i + 1])) == [AsHoliday(items[i])] + Reverse(before);
    } else {
      assert before + [] == before;
    }
  }

  /** Ingestion keeps the old catalogue as its tail and puts the k-th stored
      new holiday from the last national record backwards. */
  lemma IngestedLayout(hs: seq<Holiday>, r: Response)
    ensures var n := |National(Arrived(r))|;
      |Ingested(hs, r)| == n + |hs| &&
      Ingested(hs, r)[n..] == hs &&
      forall k :: 0 <= k < n ==> Ingested(hs, r)[k] == National(Arrived(r))[n - 1 - k]
  {
    var added := National(Arrived(r));
    ReverseLength(added);
    forall k | 0 <= k < |added|
      ensures Ingested(hs, r)[k] == added[|added| - 1 - k]
    {
      ReverseAt(added, k);
    }
  }

  /** A failed fetch, or a batch without any national record, leaves the
      catalogue as it was; any national record changes it. */
  lemma IngestedUnchanged(hs: seq<Holiday>, r: Response)
    ensures Ingested(hs, r) == hs <==> forall i :: 0 <= i < |Arrived(r)| ==> !Arrived(r)[i].isNational
  {
    NationalEmpty(Arrived(r));
    ReverseLength(National(Arrived(r)));
    if Ingested(hs, r) == hs {
      assert |Reverse(National(Arrived(r))) + hs| == |hs|;
    }
  }

  /** A holiday is in the catalogue after ingestion exactly when it was
      there before or comes from a national record of the batch. */
  lemma IngestedMembers(hs: seq<Holiday>, r: Response, h: Holiday)
    ensures h in Ingested(hs, r) <==>
            h in hs || exists e :: e in Arrived(r) && e.isNational && AsHoliday(e) == h
  {
    ReverseMembers(National(Arrived(r)), h);
    NationalMembers(Arrived(r), h);
  }

  /** Ingesting batch after batch gives the national records of all of them,
      newest first: the catalogue is the reversed national part of everything
      that ever arrived. */
  lemma IngestedAccumulates(arrived: seq<Entry>, r: Response)
    ensures Ingested(Reverse(National(arrived)), r) == Reverse(National(arrived + Arrived(r)))
  {
    NationalAppend(arrived, Arrived(r));
    ReverseAppend(National(arrived), National(Arrived(r)));
  }

  // ---------------------------------------------------------------- selection

  /** The search succeeds exactly when some stored holiday passes the test;
      on an empty catalogue it fails. */
  lemma {:induction false} FirstQualifyingFound(ref: Tm, hs: seq<Holiday>)
    ensures FirstQualifying(ref, hs).Some? <==> exists i :: 0 <= i < |hs| && Qualifies(ref, hs[i])
    decreases |hs|
  {
    if hs != [] && !Qualifies(ref, hs[0]) {
      FirstQualifyingFound(ref, hs[1..]);
      assert forall i :: 1 <= i < |hs| ==> hs[i] == hs[1..][i - 1];
    }
  }

  /** A successful search returns a stored holiday that passes the test and
      has no passing holiday before it. */
  lemma {:induction false} FirstQualifyingIsFirst(ref: Tm, hs: seq<Holiday>)
    requires FirstQualifying(ref, hs).Some?
    ensures exists i :: 0 <= i < |hs| && hs[i] == FirstQualifying(ref, hs).value &&
                        Qualifies(ref, hs[i]) && forall j :: 0 <= j < i ==> !Qualifies(ref, hs[j])
    decreases |hs|
  {
    if !Qualifies(ref, hs[0]) {
      FirstQualifyingIsFirst(ref, hs[1..]);
      var i :| 0 <= i < |hs[1..]| && hs[1..][i] == FirstQualifying(ref, hs[1..]).value &&
               Qualifies(ref, hs[1..][i]) && forall j :: 0 <= j < i ==> !Qualifies(ref, hs[1..][j]);
      assert hs[i + 1] == hs[1..][i];
      assert forall j :: 1 <= j < i + 1 ==> hs[j] == hs[1..][j - 1];
    } else {
      assert hs[0] == FirstQualifying(ref, hs).value;
    }
  }

  /** Conversely, a passing holiday with no passing holiday before it is what
      the search returns. */
  lemma {:induction false} FirstQualifyingOfFirst(ref: Tm, hs: seq<Holiday>, i: int)
    requires 0 <= i < |hs| && Qualifies(ref, hs[i])
    requires forall j :: 0 <= j < i ==> !Qualifies(ref, hs[j])
    ensures FirstQualifying(ref, hs) == Some(hs[i])
    decreases i
  {
    if i > 0 {
      assert forall j :: 0 <= j < i - 1 ==> hs[1..][j] == hs[j + 1];
      FirstQualifyingOfFirst(ref, hs[1..], i - 1);
    }
  }

  /** Searching a catalogue with a prefix: the prefix's answer wins, and the
      rest is searched only when the prefix has none. */
  lemma {:induction false} FirstQualifyingPrefix(ref: Tm, a: seq<Holiday>, b: seq<Holiday>)
    ensures FirstQualifying(ref, a + b) ==
            if FirstQualifying(ref, a).Some? then FirstQualifying(ref, a) else FirstQualifying(ref, b)
    decreases |a|
  {
    if a == [] {
      assert a + b == b;
    } else {
      assert (a + b)[1..] == a[1..] + b;
      FirstQualifyingPrefix(ref, a[1..], b);
    }
  }

  /** The retry after a failed search: the old catalogue holds no passing
      holiday, so the second search answers from the newly ingested batch alone. */
  lemma RetrySearchesNewBatch(ref: Tm, hs: seq<Holiday>, r: Response)
    requires FirstQualifying(ref, hs).None?
    ensures FirstQualifying(ref, Ingested(hs, r)) == FirstQualifying(ref, Reverse(National(Arrived(r))))
  {
    FirstQualifyingPrefix(ref, Reverse(National(Arrived(r))), hs);
  }

  /** The day comparison applies whatever the months: a holiday in a later
      month is still skipped when its day of the month is smaller. */
  lemma LaterMonthSmallerDayRejected(ref: Tm, h: Holiday)
    requires ref.mon < h.date.mon && h.date.mday < ref.mday
    ensures FirstQualifying(ref, [h]).None?
  {
  }

  /** Two concrete catalogues: a holiday on 29 November stored before one on
      25 December (months count from 0). */
  lemma StoredOrderScenarios()
    ensures var x, xmas := Holiday("X", Tm(125, 10, 29)), Holiday("Christmas", Tm(125, 11, 25));
      FirstQualifying(Tm(125, 11, 1), [x, xmas]) == Some(xmas) &&
      FirstQualifying(Tm(125, 0, 1), [x, xmas]) == Some(x) &&
      FirstQualifying(Tm(125, 11, 26), [x, xmas]) == None &&
      FirstQualifying(Tm(125, 0, 30), [x, xmas]) == None
  {
    var x, xmas := Holiday("X", Tm(125, 10, 29)), Holiday("Christmas", Tm(125, 11, 25));
    assert [x, xmas][1..] == [xmas];
    assert [xmas][1..] == [];
    assert FirstQualifying(Tm(125, 11, 26), [xmas]) == None;
    assert FirstQualifying(Tm(125, 0, 30), [xmas]) == None;
  }
}
