/** `view_log` (email.py): which log files the history shows and in what
    order. The directory listing is a parameter; reading and printing each
    record is left to the caller. */
module LogView {
  import opened Strings
  import opened Clock

  /** The history shows at most this many files. */
  const MAX_SHOWN: nat := 20

  /** A name `Path.glob("*.json")` yields: it ends in `.json`. pathlib's
      wildcard matching has no rule for hidden files, so names starting
      with a dot match too. */
  predicate IsLogName(name: string) {
    |name| >= 5 && name[|name| - 5..] == ".json"
  }

  /** The listing entries that are log files, in listing order. */
  function LogNames(listing: seq<string>): (logs: seq<string>)
    ensures forall i :: 0 <= i < |logs| ==> IsLogName(logs[i]) && logs[i] in listing
    ensures forall x :: x in listing && IsLogName(x) ==> x in logs
    ensures |logs| <= |listing|
    ensures forall x {:trigger multiset(logs)[x]} ::
              multiset(logs)[x] == if IsLogName(x) then multiset(listing)[x] else 0
  {
    if |listing| == 0 then []
    else
      assert listing == [listing[0]] + listing[1..];
      if IsLogName(listing[0]) then [listing[0]] + LogNames(listing[1..])
      else LogNames(listing[1..])
  }

  /** Nothing later in `s` sorts after `y`. */
  predicate Bounds(y: string, s: seq<string>) {
    forall k :: 0 <= k < |s| ==> !Less(y, s[k])
  }

  /** Sorted newest name first: no name sorts after one before it. */
  predicate Descending(s: seq<string>) {
    forall i, j :: 0 <= i < j < |s| ==> !Less(s[i], s[j])
  }

  /** Puts `x` into a descending sequence, before the first name it does not
      sort below. */
  function Insert(x: string, s: seq<string>): (r: seq<string>)
    ensures multiset(r) == multiset(s) + multiset{x}
    ensures |r| == |s| + 1
  {
    if |s| == 0 then [x]
    else if !Less(x, s[0]) then [x] + s
    else
      assert s == [s[0]] + s[1..];
      [s[0]] + Insert(x, s[1..])
  }

  lemma {:induction false} InsertBounds(y: string, x: string, s: seq<string>)
    requires Bounds(y, s) && !Less(y, x)
    ensures Bounds(y, Insert(x, s))
  {
    if |s| > 0 && Less(x, s[0]) {
      InsertBounds(y, x, s[1..]);
      assert Insert(x, s) == [s[0]] + Insert(x, s[1..]);
    }
  }

  lemma {:induction false} InsertDescending(x: string, s: seq<string>)
    requires Descending(s)
    ensures Descending(Insert(x, s))
  {
    if |s| == 0 {
    } else if !Less(x, s[0]) {
      FrontBounds(x, s);
      ConsDescending(x, s);
    } else {
      InsertDescending(x, s[1..]);
      LessAsymmetric(x, s[0]);
      FrontBounds(s[0], s[1..]);
      InsertBounds(s[0], x, s[1..]);
      ConsDescending(s[0], Insert(x, s[1..]));
    }
  }

  /** A name that the head of a descending sequence does not sort above
      bounds the whole sequence. */
  lemma FrontBounds(x: string, s: seq<string>)
    requires Descending(s) && (|s| == 0 || !Less(x, s[0]))
    ensures Bounds(x, s)
  {
    forall k | 0 <= k < |s| ensures !Less(x, s[k]) {
      if k > 0 {
        NotLessTransitive(x, s[0], s[k]);
      }
    }
  }

  /** Putting a bound in front of a descending sequence keeps it descending. */
  lemma ConsDescending(y: string, t: seq<string>)
    requires Descending(t) && Bounds(y, t)
    ensures Descending([y] + t)
  {
    var r := [y] + t;
    forall i, j | 0 <= i < j < |r| ensures !Less(r[i], r[j]) {
      if i == 0 {
        assert r[j] == t[j - 1];
      } else {
        assert r[i] == t[i - 1] && r[j] == t[j - 1];
      }
    }
  }

  /** `sorted(names, reverse=True)`: the same names, in descending order. */
  function SortDescending(s: seq<string>): (r: seq<string>)
    ensures multiset(r) == multiset(s)
    ensures |r| == |s|
  {
    if |s| == 0 then []
    else
      assert s == [s[0]] + s[1..];
      Insert(s[0], SortDescending(s[1..]))
  }

  lemma {:induction false} SortDescendingSorted(s: seq<string>)
    ensures Descending(SortDescending(s))
  {
    if |s| > 0 {
      SortDescendingSorted(s[1..]);
      InsertDescending(s[0], SortDescending(s[1..]));
    }
  }

  /** `sorted(SENT_DIR.glob("*.json"), reverse=True)[:20]`: the log files,
      names in descending order, at most twenty of them. */
  function ViewLog(listing: seq<string>): (shown: seq<string>)
    ensures |shown| == if |LogNames(listing)| < MAX_SHOWN then |LogNames(listing)| else MAX_SHOWN
    ensures forall i :: 0 <= i < |shown| ==> IsLogName(shown[i]) && shown[i] in listing
    ensures multiset(shown) <= multiset(LogNames(listing))
  {
    var logs := LogNames(listing);
    var sorted := SortDescending(logs);
    var n := if |sorted| < MAX_SHOWN then |sorted| else MAX_SHOWN;
    TakeWithin(sorted, logs, n);
    sorted[..n]
  }

  /** The first `n` names of a permutation of `logs` are drawn from `logs`. */
  lemma TakeWithin(sorted: seq<string>, logs: seq<string>, n: nat)
    requires multiset(sorted) == multiset(logs) && n <= |sorted|
    ensures multiset(sorted[..n]) <= multiset(logs)
    ensures forall i :: 0 <= i < n ==> sorted[..n][i] in logs
  {
    assert sorted == sorted[..n] + sorted[n..];
    forall i | 0 <= i < n ensures sorted[..n][i] in logs {
      assert sorted[i] in multiset(logs);
    }
  }

  /** A hidden log file is listed like any other. */
  lemma ViewLogHiddenName(listing: seq<string>)
    requires listing == [".a.json"]
    ensures ViewLog(listing) == [".a.json"]
  {
    assert LogNames(listing) == [".a.json"];
  }

  /** The shown names are in descending order. */
  lemma ViewLogDescending(listing: seq<string>)
    ensures Descending(ViewLog(listing))
  {
    SortDescendingSorted(LogNames(listing));
  }

  /** The shown names are the greatest ones: a log file that sorts after a
      shown one is shown too. */
  lemma ViewLogGreatest(listing: seq<string>, x: string, y: string)
    requires x in ViewLog(listing) && y in listing && IsLogName(y) && Less(x, y)
    ensures y in ViewLog(listing)
  {
    var logs := LogNames(listing);
    var sorted := SortDescending(logs);
    SortDescendingSorted(logs);
    var shown := ViewLog(listing);
    assert y in multiset(sorted);
    var k :| 0 <= k < |sorted| && sorted[k] == y;
    var i :| 0 <= i < |shown| && shown[i] == x;
    assert shown[i] == sorted[i];
    if k >= |shown| {
      assert false;
    } else {
      assert shown[k] == y;
    }
  }

  /** Newest first: of two shown names that begin with stamps, the earlier
      one in the listing never carries the earlier second. */
  lemma ViewLogNewestFirst(listing: seq<string>)
    ensures var shown := ViewLog(listing);
      forall i, j, a, b ::
        (0 <= i < j < |shown| && Valid(a) && Valid(b)
         && Stamp(a) <= shown[i] && Stamp(b) <= shown[j]) ==> !EarlierSecond(a, b)
  {
    var shown := ViewLog(listing);
    ViewLogDescending(listing);
    forall i, j, a, b | 0 <= i < j < |shown| && Valid(a) && Valid(b)
      && Stamp(a) <= shown[i] && Stamp(b) <= shown[j]
      ensures !EarlierSecond(a, b)
    {
      StampedNotEarlier(shown[i], shown[j], a, b);
    }
  }

  /** A stamped name that does not sort below another stamped name does not
      carry the earlier second. */
  lemma StampedNotEarlier(x: string, y: string, a: DateTime, b: DateTime)
    requires Valid(a) && Valid(b) && Stamp(a) <= x && Stamp(b) <= y && !Less(x, y)
    ensures !EarlierSecond(a, b)
  {
    StampOrder(a, b);
    assert x == Stamp(a) + x[15..] && y == Stamp(b) + y[15..];
    LessConcat(Stamp(a), x[15..], Stamp(b), y[15..]);
  }
}
