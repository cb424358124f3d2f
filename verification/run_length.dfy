/** `distinct` (smith-form.h, lines 43-61): appends to a list the runs of
    equal adjacent values of a sequence, each as (value, count). The
    Smith-form solutions use it to turn a diagonal of invariant factors
    into (factor, multiplicity) pairs. */
module RunLength {
  datatype Run<T> = Run(value: T, count: nat)

  /** The sequence a list of runs stands for. */
  function Expand<T>(runs: seq<Run<T>>): seq<T>
  {
    if |runs| == 0 then []
    else seq(runs[0].count, _ => runs[0].value) + Expand(runs[1..])
  }

  /** Runs are nonempty and neighbouring runs hold different values. */
  predicate IsRuns<T(==)>(runs: seq<Run<T>>)
  {
    && (forall i :: 0 <= i < |runs| ==> runs[i].count > 0)
    && (forall i :: 0 < i < |runs| ==> runs[i - 1].value != runs[i].value)
  }

  lemma {:induction false} ExpandConcat<T>(a: seq<Run<T>>, b: seq<Run<T>>)
    ensures Expand(a + b) == Expand(a) + Expand(b)
    decreases |a|
  {
    if |a| == 0 {
      assert a + b == b;
    } else {
      assert (a + b)[1..] == a[1..] + b;
      ExpandConcat(a[1..], b);
    }
  }

  /** A single run expands to count copies of its value. */
  lemma ExpandSingle<T>(e: T, count: nat)
    ensures Expand([Run(e, count)]) == seq(count, _ => e)
  {
    assert [Run(e, count)][1..] == [];
  }

  /** Closing the open run appends its copies to the expansion. */
  lemma CloseRun<T>(runs: seq<Run<T>>, e: T, count: nat)
    ensures Expand(runs + [Run(e, count)]) == Expand(runs) + seq(count, _ => e)
  {
    ExpandConcat(runs, [Run(e, count)]);
    ExpandSingle(e, count);
  }

  /** Closing a nonempty run that differs from the last closed one keeps
      the list a list of runs. */
  lemma CloseRunIsRuns<T>(runs: seq<Run<T>>, r: Run<T>)
    requires IsRuns(runs) && r.count > 0
    requires |runs| > 0 ==> runs[|runs| - 1].value != r.value
    ensures IsRuns(runs + [r])
  {
  }

  lemma GrowRun<T>(e: T, count: nat)
    ensures seq(count + 1, _ => e) == seq(count, _ => e) + [e]
  {
  }

  lemma PrefixSnoc<T>(s: seq<T>, a: nat)
    requires a < |s|
    ensures s[..a + 1] == s[..a] + [s[a]]
  {
  }

  /** The loop keeps the runs closed so far plus the open run (e, count)
      equal to the prefix read so far. */
  method Distinct<T(==)>(s: seq<T>, c: seq<Run<T>>) returns (c': seq<Run<T>>)
    ensures |c'| >= |c| && c'[..|c|] == c
    ensures Expand(c'[|c|..]) == s
    ensures IsRuns(c'[|c|..])
    ensures s == [] ==> c' == c
  {
    if |s| == 0 {
      return c;
    }
    var e := s[0];
    var count := 1;
    var runs: seq<Run<T>> := [];
    var a := 1;
    while a < |s|
      invariant 1 <= a <= |s| && 1 <= count <= a
      invariant Expand(runs) + seq(count, _ => e) == s[..a]
      invariant IsRuns(runs)
      invariant |runs| > 0 ==> runs[|runs| - 1].value != e
      invariant s[a - 1] == e
    {
      PrefixSnoc(s, a);
      if s[a] == e {
        GrowRun(e, count);
        count := count + 1;
      } else {
        CloseRun(runs, e, count);
        CloseRunIsRuns(runs, Run(e, count));
        runs := runs + [Run(e, count)];
        e := s[a];
        count := 1;
        assert seq(count, _ => e) == [s[a]];
      }
      a := a + 1;
    }
    CloseRun(runs, e, count);
    CloseRunIsRuns(runs, Run(e, count));
    runs := runs + [Run(e, count)];
    assert s[..a] == s;
    c' := c + runs;
    assert c'[|c|..] == runs;
  }

  /** Where the first run of a list of runs ends, the sequence ends or
      the value changes. */
  lemma RunBoundary<T>(runs: seq<Run<T>>)
    requires IsRuns(runs) && |runs| > 0
    ensures |Expand(runs)| >= runs[0].count
    ensures |Expand(runs)| == runs[0].count || Expand(runs)[runs[0].count] != runs[0].value
  {
    var head := seq(runs[0].count, _ => runs[0].value);
    assert Expand(runs) == head + Expand(runs[1..]);
    if |runs| > 1 {
      var tail := runs[1..];
      assert tail[0] == runs[1] && tail[0].count > 0;
      assert Expand(tail) == seq(tail[0].count, _ => tail[0].value) + Expand(tail[1..]);
      assert Expand(tail)[0] == runs[1].value;
      assert Expand(runs)[runs[0].count] == Expand(tail)[0];
    } else {
      assert runs[1..] == [];
    }
  }

  /** A sequence has one run-length encoding: what Distinct appends is
      determined by the input. */
  lemma {:induction false} RunsUnique<T>(a: seq<Run<T>>, b: seq<Run<T>>)
    requires IsRuns(a) && IsRuns(b) && Expand(a) == Expand(b)
    ensures a == b
    decreases |a|
  {
    if |a| > 0 && |b| > 0 {
      var pa := seq(a[0].count, _ => a[0].value);
      var pb := seq(b[0].count, _ => b[0].value);
      assert Expand(a) == pa + Expand(a[1..]);
      assert Expand(b) == pb + Expand(b[1..]);
      assert a[0].value == b[0].value by {
        assert Expand(a)[0] == pa[0];
        assert Expand(b)[0] == pb[0];
      }
      RunBoundary(a);
      RunBoundary(b);
      assert a[0] == b[0];
      assert Expand(a[1..]) == Expand(b[1..]) by {
        assert Expand(a[1..]) == Expand(a)[a[0].count..];
        assert Expand(b[1..]) == Expand(b)[b[0].count..];
      }
      assert IsRuns(a[1..]) && IsRuns(b[1..]) by {
        assert forall i :: 0 < i < |a| ==> a[1..][i - 1] == a[i];
        assert forall i :: 0 < i < |b| ==> b[1..][i - 1] == b[i];
      }
      RunsUnique(a[1..], b[1..]);
      assert a == [a[0]] + a[1..];
      assert b == [b[0]] + b[1..];
    } else if |a| > 0 {
      RunBoundary(a);
    } else if |b| > 0 {
      RunBoundary(b);
    }
  }
}
