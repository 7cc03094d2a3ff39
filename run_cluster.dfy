/** The cluster launcher's two decisions: finding the public ip of us-west-1
    among the "<dc> <ip>" lines of the dc-ip-map file, and choosing the
    experiment id from the command line. The file is given as its list of
    lines (each with its line terminator, as readlines() leaves it) and the
    current UTC time as its already formatted text. */
module RunCluster {
  import opened Common

  // ---------------------------------------------------------------------
  // str.strip() and str.split(" ")

  /** The characters Python 2's str.strip() removes when given no argument. */
  predicate IsSpace(c: char)
  {
    c == ' ' || c == '\t' || c == '\n' || c == '\r' || c == '\U{000B}' || c == '\U{000C}'
  }

  /** Drops the leading whitespace of `s`. */
  function StripLeft(s: string): (r: string)
    ensures |r| <= |s| && r == s[|s| - |r|..]
    ensures forall k :: 0 <= k < |s| - |r| ==> IsSpace(s[k])
    ensures r != [] ==> !IsSpace(r[0])
  {
    if s != [] && IsSpace(s[0]) then StripLeft(s[1..]) else s
  }

  /** Drops the trailing whitespace of `s`. */
  function StripRight(s: string): (r: string)
    ensures |r| <= |s| && r == s[..|r|]
    ensures forall k :: |r| <= k < |s| ==> IsSpace(s[k])
    ensures r != [] ==> !IsSpace(r[|r| - 1])
  {
    if s != [] && IsSpace(s[|s| - 1]) then StripRight(s[..|s| - 1]) else s
  }

  /** `r` is the middle of `s`, with only whitespace cut off either end. */
  predicate Trims(s: string, r: string)
  {
    exists i, j ::
      && 0 <= i <= j <= |s| && r == s[i..j]
      && (forall k :: 0 <= k < i ==> IsSpace(s[k]))
      && (forall k :: j <= k < |s| ==> IsSpace(s[k]))
  }

  /** str.strip(): `s` without its leading and trailing whitespace. */
  function Strip(s: string): (r: string)
    ensures r != [] ==> !IsSpace(r[0]) && !IsSpace(r[|r| - 1])
    ensures r == [] <==> forall k :: 0 <= k < |s| ==> IsSpace(s[k])
    ensures Trims(s, r)
  {
    var l := StripLeft(s);
    var r := StripRight(l);
    assert r != [] ==> r[0] == l[0];
    assert r == [] ==> l == [];
    assert r != [] ==> s[|s| - |l|] == r[0];
    StripTrims(s);
    r
  }

  lemma StripTrims(s: string)
    ensures Trims(s, StripRight(StripLeft(s)))
  {
    var l := StripLeft(s);
    var r := StripRight(l);
    var i := |s| - |l|;
    var j := i + |r|;
    assert r == s[i..j];
    assert forall k :: 0 <= k < i ==> IsSpace(s[k]);
    forall k | j <= k < |s| ensures IsSpace(s[k]) {
      assert s[k] == l[k - i];
    }
    assert 0 <= i <= j <= |s|;
  }

  /** The fields joined back with single spaces: the inverse of Split. */
  function Join(fields: seq<string>): string
    requires |fields| >= 1
  {
    if |fields| == 1 then fields[0] else fields[0] + " " + Join(fields[1..])
  }

  /** str.split(" "): the pieces of `s` between single spaces, empty pieces
      included, so that a blank string gives one empty field and a doubled
      space gives an empty field between the two. */
  function Split(s: string): (fields: seq<string>)
    ensures |fields| >= 1
    ensures forall i :: 0 <= i < |fields| ==> ' ' !in fields[i]
    decreases |s|
  {
    var k := IndexOf(s, ' ');
    if k == |s| then [s] else [s[..k]] + Split(s[k + 1..])
  }

  /** Joining the fields gives the string back. */
  lemma {:induction false} JoinSplit(s: string)
    ensures Join(Split(s)) == s
    decreases |s|
  {
    var k := IndexOf(s, ' ');
    if k < |s| {
      JoinSplit(s[k + 1..]);
      JoinCons(s[..k], Split(s[k + 1..]));
      assert s == s[..k] + " " + s[k + 1..];
    }
  }

  lemma JoinCons(head: string, tail: seq<string>)
    requires |tail| >= 1
    ensures Join([head] + tail) == head + " " + Join(tail)
  {
    assert ([head] + tail)[1..] == tail;
  }

  /** One field more than there are spaces. */
  lemma {:induction false} SplitCount(s: string)
    ensures |Split(s)| == multiset(s)[' '] + 1
    decreases |s|
  {
    var k := IndexOf(s, ' ');
    assert ' ' !in multiset(s[..k]);
    if k == |s| {
      assert s[..k] == s;
    } else {
      SplitCount(s[k + 1..]);
      assert s == s[..k] + [' '] + s[k + 1..];
      assert multiset(s) == multiset(s[..k]) + multiset{' '} + multiset(s[k + 1..]);
    }
  }

  /** Split undoes Join on space-free fields: the two are inverse. */
  lemma {:induction false} SplitJoin(fields: seq<string>)
    requires |fields| >= 1
    requires forall i :: 0 <= i < |fields| ==> ' ' !in fields[i]
    ensures Split(Join(fields)) == fields
  {
    var f := fields[0];
    assert IndexOf(f, ' ') == |f|;
    if |fields| > 1 {
      var t := Join(fields[1..]);
      var s := f + " " + t;
      assert forall j :: 0 <= j < |f| ==> s[j] == f[j];
      assert s[|f|] == ' ';
      assert IndexOf(s, ' ') == |f|;
      assert s[..|f|] == f && s[|f| + 1..] == t;
      SplitJoin(fields[1..]);
      assert [f] + fields[1..] == fields;
    }
  }

  // ---------------------------------------------------------------------
  // GetUsWest1PubIp

  const TargetDc := "us-west-1"

  /** A line of dc-ip-map as the scan sees it: stripped and split on single
      spaces, it either gives exactly a dc and an ip or it is malformed. */
  datatype Line = Malformed(raw: string) | Pair(dc: string, ip: string)

  function ParseLine(line: string): Line
  {
    var t := Split(Strip(line));
    if |t| != 2 then Malformed(line) else Pair(t[0], t[1])
  }

  /** A line parses to a pair exactly when, stripped, it is the dc, one
      space and the ip. */
  lemma ParseLinePair(line: string, dc: string, ip: string)
    ensures ParseLine(line) == Pair(dc, ip) <==>
      Strip(line) == dc + " " + ip && ' ' !in dc && ' ' !in ip
  {
    var t := Split(Strip(line));
    assert ParseLine(line) == Pair(dc, ip) <==> t == [dc, ip];
    SplitPair(Strip(line), dc, ip);
  }

  /** A string splits into exactly the two fields dc and ip when it is dc,
      one space and ip, with no further space. */
  lemma SplitPair(u: string, dc: string, ip: string)
    ensures Split(u) == [dc, ip] <==> u == dc + " " + ip && ' ' !in dc && ' ' !in ip
  {
    if Split(u) == [dc, ip] {
      JoinSplit(u);
      JoinCons(dc, [ip]);
    }
    if u == dc + " " + ip && ' ' !in dc && ' ' !in ip {
      SplitJoin([dc, ip]);
      JoinCons(dc, [ip]);
    }
  }

  /** So a line is well formed exactly when, stripped, it holds one space:
      a blank line and a line with a doubled space are malformed. */
  lemma ParseLineMalformed(line: string)
    ensures ParseLine(line).Malformed? <==> multiset(Strip(line))[' '] != 1
  {
    SplitCount(Strip(line));
  }

  function ParseLines(lines: seq<string>): (ls: seq<Line>)
    ensures |ls| == |lines|
    ensures forall i :: 0 <= i < |lines| ==> ls[i] == ParseLine(lines[i])
  {
    seq(|lines|, i requires 0 <= i < |lines| => ParseLine(lines[i]))
  }

  /** A line on which the scan stops: it raises or it returns. */
  predicate Stops(l: Line)
  {
    l.Malformed? || l.dc == TargetDc
  }

  /** Index of the line the scan stops on, or |ls| if it stops on none. */
  function FirstStop(ls: seq<Line>): (k: nat)
    ensures k <= |ls|
    ensures k < |ls| ==> Stops(ls[k])
    ensures forall j :: 0 <= j < k ==> !Stops(ls[j])
  {
    if ls == [] || Stops(ls[0]) then 0 else 1 + FirstStop(ls[1..])
  }

  /** How a Python function ends: by returning a value, or by raising. */
  datatype PyResult = Returned(value: Option<string>) | Raised(message: string)

  /** The RuntimeError message for a malformed line, stray "s" included. */
  function FormatError(line: string): string
  {
    "Unexpected format [" + line + "]s"
  }

  /** The result of scanning parsed lines: None exactly when every line is a
      pair for another DC; otherwise decided by the first line that is
      malformed or for us-west-1. */
  function Scan(ls: seq<Line>): (r: PyResult)
    ensures r == Returned(None) <==>
      forall j :: 0 <= j < |ls| ==> ls[j].Pair? && ls[j].dc != TargetDc
    ensures r.Raised? ==>
      exists k :: 0 <= k < |ls| && ls[k].Malformed? && r.message == FormatError(ls[k].raw) &&
        forall j :: 0 <= j < k ==> ls[j].Pair? && ls[j].dc != TargetDc
    ensures r.Returned? && r.value.Some? ==>
      exists k :: 0 <= k < |ls| && ls[k] == Pair(TargetDc, r.value.value) &&
        forall j :: 0 <= j < k ==> ls[j].Pair? && ls[j].dc != TargetDc
  {
    var k := FirstStop(ls);
    if k == |ls| then Returned(None)
    else match ls[k]
      case Malformed(raw) => Raised(FormatError(raw))
      case Pair(_, ip) => Returned(Some(ip))
  }

  /** Scanning a + b: once a decides the result, b is never looked at;
      otherwise the result is that of b. So a malformed line after the first
      match does not raise, and one before any match raises even if a match
      follows. */
  lemma {:induction false} ScanConcat(a: seq<Line>, b: seq<Line>)
    ensures Scan(a + b) == if Scan(a) == Returned(None) then Scan(b) else Scan(a)
  {
    FirstStopConcat(a, b);
    var k := FirstStop(a);
    if k < |a| {
      assert (a + b)[k] == a[k];
    } else if FirstStop(b) < |b| {
      assert (a + b)[|a| + FirstStop(b)] == b[FirstStop(b)];
    }
  }

  lemma {:induction false} FirstStopConcat(a: seq<Line>, b: seq<Line>)
    ensures FirstStop(a + b) == if FirstStop(a) < |a| then FirstStop(a) else |a| + FirstStop(b)
  {
    if a == [] {
      assert a + b == b;
    } else {
      assert (a + b)[0] == a[0];
      assert (a + b)[1..] == a[1..] + b;
      FirstStopConcat(a[1..], b);
    }
  }

  /** The same for the file's lines: lines after the first us-west-1 line
      or the first malformed line are never examined. */
  lemma LinesConcat(a: seq<string>, b: seq<string>)
    ensures Scan(ParseLines(a + b)) ==
      if Scan(ParseLines(a)) == Returned(None) then Scan(ParseLines(b)) else Scan(ParseLines(a))
  {
    ParseLinesAppend(a, b);
    ScanConcat(ParseLines(a), ParseLines(b));
  }

  lemma ParseLinesAppend(a: seq<string>, b: seq<string>)
    ensures ParseLines(a + b) == ParseLines(a) + ParseLines(b)
  {

  }

  /** Scans the lines in order: a line that does not split into two fields
      raises, the first us-west-1 line gives its ip, and falling off the end
      returns None. */
  method GetUsWest1PubIp(lines: seq<string>) returns (r: PyResult)
    ensures r == Scan(ParseLines(lines))
  {
    ghost var ls := ParseLines(lines);
    for i := 0 to |lines|
      invariant i <= FirstStop(ls)
    {
      var t := Split(Strip(lines[i]));
      if |t| != 2 {
        assert ls[i] == Malformed(lines[i]);
        assert FirstStop(ls) == i;
        assert Scan(ls) == Raised(FormatError(lines[i]));
        return Raised(FormatError(lines[i]));
      }
      var dc := t[0];
      var ip := t[1];
      assert ls[i] == Pair(dc, ip);
      if dc == TargetDc {
        assert FirstStop(ls) == i;
        assert Scan(ls) == Returned(Some(ip));
        return Returned(Some(ip));
      }
      assert !Stops(ls[i]);
    }
    assert FirstStop(ls) == |lines|;
    assert Scan(ls) == Returned(None);
    return Returned(None);
  }

  // ---------------------------------------------------------------------
  // The experiment id of main

  /** What main does with its arguments: run with an experiment id, or print
      the usage line and exit with a status. */
  datatype Launch = Run(expId: string) | Usage(message: string, status: int)

  /** `argv` is sys.argv, which always holds the script path first;
      `timestamp` is the current UTC time formatted as "%y%m%d-%H%M%S". */
  method SelectExpId(argv: seq<string>, timestamp: string) returns (r: Launch)
    requires |argv| >= 1
    ensures |argv| == 1 ==> r == Run(timestamp)
    ensures |argv| == 2 ==> r == Run(argv[1])
    ensures |argv| > 2 ==> r == Usage("Usage: " + argv[0], 1)
  {
    var expId: Option<string> := None;
    if |argv| == 1 {
      expId := Some(timestamp);
    } else if |argv| == 2 {
      expId := Some(argv[1]);
    } else {
      return Usage("Usage: " + argv[0], 1);
    }
    r := Run(expId.value);
  }
}
