/** The download dispatcher (RequestHelper.sendDownloadRequest): the same pre-flight check
    and registration as ordinary requests, then, on a live response, the status bands, the
    resolution of the target file, and the copy loop that streams the body to the file while
    reporting progress. The file system, the streams and the page-liveness query
    (isReTagExist) are oracles: the k-th liveness query of one transfer is answered by
    live(k). Events posted to the main-thread handler are recorded in posting order. */
module Download {
  import opened Registry
  import Dispatch

  /** A file: its directory and its name in that directory. */
  datatype Path = Path(dir: string, name: string)

  /** The messages passed to onFail. */
  datatype FailMessage =
    | NetworkDown                                      // network connection failed
    | HttpStatus(status: int, band: Dispatch.Message)  // the status, then its band's message
    | MkdirFailed                                      // creating the local directory failed
    | DownloadFailed(reason: string)                   // download failed, with the transport's reason
    | FileFailed                                       // writing the file failed

  /** One call on a DownLoadListener. */
  datatype DownloadEvent = OnStart | OnProgress(percent: int) | OnDone(path: Path) | OnFail(message: FailMessage)

  /** What the response body and the local file do during the transfer: the successive
      lengths read returns before it signals the end (or throws), the declared length, and
      where an I/O exception is raised: opening the output file, the read or write after the
      listed chunks (or the flush), closing the input, closing the output. */
  datatype Stream = Stream(chunks: seq<nat>, total: int, openFails: bool, failsAtEnd: bool,
                           inCloseFails: bool, outCloseFails: bool)

  datatype DownloadBody = NoBody | Body(stream: Stream)

  /** onFailure with the throwable's message, or onResponse with a status and a body. */
  datatype DownloadCompletion = Failed(reason: string) | Responded(status: int, body: DownloadBody)

  function Digit(d: nat): (c: char)
    requires d < 10
    ensures '0' <= c <= '9' && c as int - '0' as int == d
  {
    ('0' as int + d) as char
  }

  /** The decimal rendering of a non-negative number (Long.toString). */
  function Decimal(n: nat): (s: string)
    ensures |s| >= 1
    ensures forall i :: 0 <= i < |s| ==> '0' <= s[i] <= '9'
    ensures s[0] == '0' ==> n == 0
    decreases n
  {
    if n < 10 then [Digit(n)] else Decimal(n / 10) + [Digit(n % 10)]
  }

  /** The number a string of decimal digits denotes. */
  function DigitsValue(s: string): int
    decreases |s|
  {
    if s == [] then 0 else DigitsValue(s[..|s| - 1]) * 10 + (s[|s| - 1] as int - '0' as int)
  }

  /** The timestamp prefix denotes the clock reading it was made from. */
  lemma {:induction false} DecimalRoundTrip(n: nat)
    ensures DigitsValue(Decimal(n)) == n
    decreases n
  {
    if n >= 10 {
      DecimalRoundTrip(n / 10);
      var s := Decimal(n);
      assert s[..|s| - 1] == Decimal(n / 10);
    }
  }

  /** Where a 200 response is written: nowhere when the directory is missing (whether or not
      mkdir then succeeds; onFail only when it fails), otherwise fileName in the directory,
      or, when that file exists, the clock reading followed by fileName. */
  datatype Target = Abort(events: seq<DownloadEvent>) | WriteTo(path: Path)

  function ResolveTarget(dir: string, fileName: string, dirReady: bool, mkdirSucceeds: bool,
                         fileExists: bool, now: nat): (r: Target)
    ensures !dirReady ==> r.Abort? && (r.events == [] <==> mkdirSucceeds)
                          && (r.events == [] || r.events == [OnFail(MkdirFailed)])
    ensures dirReady ==> r.WriteTo? && r.path.dir == dir && (r.path.name == fileName <==> !fileExists)
    ensures dirReady && fileExists ==> r.path.name == Decimal(now) + fileName
  {
    if !dirReady then Abort(if mkdirSucceeds then [] else [OnFail(MkdirFailed)])
    else if fileExists then WriteTo(Path(dir, Decimal(now) + fileName))
    else WriteTo(Path(dir, fileName))
  }

  /** Long division, which truncates toward zero. */
  function LongDiv(a: int, b: int): (q: int)
    requires b != 0
    ensures a >= 0 && b > 0 ==> q == a / b
    ensures var r := a - q * b;
            -Abs(b) < r < Abs(b) && (r == 0 || (r > 0 <==> a > 0))
  {
    var m := Abs(a) / Abs(b);
    var q := if (a >= 0) == (b > 0) then m else -m;
    TruncatedRemainder(a, b, m, q);
    q
  }

  function Abs(x: int): (r: int)
    ensures r >= 0 && (r == x || r == -x)
  {
    if x >= 0 then x else -x
  }

  /** The remainder left by the quotient of the magnitudes, signed as the quotient demands,
      is smaller than the divisor and takes the dividend's sign. */
  lemma TruncatedRemainder(a: int, b: int, m: int, q: int)
    requires b != 0 && m == Abs(a) / Abs(b)
    requires q == if (a >= 0) == (b > 0) then m else -m
    ensures -Abs(b) < a - q * b < Abs(b)
    ensures a - q * b == 0 || (a - q * b > 0 <==> a > 0)
  {
    var A, B := Abs(a), Abs(b);
    var rem := A % B;
    var p := m * B;
    assert A == p + rem && 0 <= rem < B;
    Negate(m, B);
    if a >= 0 {
      assert q * b == p by { if b < 0 { assert q == -m && b == -B; } }
      assert a - q * b == rem;
    } else {
      assert q * b == -p by { if b < 0 { assert q == m && b == -B; } else { assert q == -m && b == B; } }
      assert a - q * b == -rem;
    }
  }

  /** The signs of two factors cancel in pairs. */
  lemma Negate(x: int, y: int)
    ensures (-x) * (-y) == x * y && (-x) * y == -(x * y) && x * (-y) == -(x * y)
  {
  }

  /** Long.toInt(): the low 32 bits, read as a signed number. */
  function ToInt(x: int): (r: int)
    ensures -0x8000_0000 <= r < 0x8000_0000
    ensures -0x8000_0000 <= x < 0x8000_0000 ==> r == x
    ensures (r - x) % 0x1_0000_0000 == 0
  {
    if -0x8000_0000 <= x < 0x8000_0000 then x
    else
      var y := x + 0x8000_0000;
      assert y % 0x1_0000_0000 - y == -(y / 0x1_0000_0000) * 0x1_0000_0000;
      y % 0x1_0000_0000 - 0x8000_0000
  }

  /** The progress reported after sum of total bytes: (sum * 100 / total).toInt(). */
  function Percent(sum: int, total: int): (p: int)
    requires total != 0
    ensures 0 <= sum <= total ==> p == sum * 100 / total
  {
    PercentInRange(sum, total);
    ToInt(LongDiv(sum * 100, total))
  }

  lemma PercentInRange(sum: int, total: int)
    requires total != 0
    ensures 0 <= sum <= total ==> 0 <= sum * 100 / total <= 100
  {
    if 0 <= sum <= total {
      DivMonotone(sum * 100, total * 100, total);
      MulDivCancel(100, total);
    }
  }

  function Sum(s: seq<nat>): nat
    decreases |s|
  {
    if s == [] then 0 else Sum(s[..|s| - 1]) + s[|s| - 1]
  }

  /** How the copy loop ends: read signalled the end, the page was gone, or the progress
      division threw (a declared length of 0). */
  datatype Exit = EndOfStream | Stopped | Threw

  /** What the copy loop does: the progress values it posts, how it ends, and the number of
      liveness queries made so far. */
  datatype Copy = Copy(progress: seq<int>, exit: Exit, queries: nat)

  /** The copy loop from chunk i on, with q liveness queries already made. */
  function CopyFrom(chunks: seq<nat>, total: int, live: nat -> bool, i: nat, q: nat): Copy
    requires i <= |chunks|
    decreases |chunks| - i
  {
    if i == |chunks| then Copy([], EndOfStream, q)
    else if total == 0 then Copy([], Threw, q)
    else if !live(q) then Copy([], Stopped, q + 1)
    else
      var rest := CopyFrom(chunks, total, live, i + 1, q + 1);
      Copy([Percent(Sum(chunks[..i + 1]), total)] + rest.progress, rest.exit, rest.queries)
  }

  /** Events and the number of liveness queries made so far. */
  datatype Run = Run(events: seq<DownloadEvent>, queries: nat)

  /** downLoadFileFail: onFail is posted only when the tag still exists. */
  function FileFail(live: nat -> bool, q: nat): Run {
    Run(if live(q) then [OnFail(FileFailed)] else [], q + 1)
  }

  /** Closing a stream, which reports through downLoadFileFail when it throws. */
  function Close(fails: bool, live: nat -> bool, q: nat): Run {
    if fails then FileFail(live, q) else Run([], q)
  }

  function ProgressEvents(ps: seq<int>): (es: seq<DownloadEvent>)
    ensures |es| == |ps|
    ensures forall k :: 0 <= k < |ps| ==> es[k] == OnProgress(ps[k])
  {
    seq(|ps|, k requires 0 <= k < |ps| => OnProgress(ps[k]))
  }

  /** The worker thread: open the streams, copy, flush, report completion, close both
      streams, with every exception reported through downLoadFileFail. */
  function TransferSpec(body: DownloadBody, path: Path, live: nat -> bool, q: nat): Run {
    match body
    case NoBody =>
      // body()!! throws before either stream exists, so nothing is closed
      FileFail(live, q)
    case Body(s) =>
      if s.openFails then
        var f := FileFail(live, q);
        var ci := Close(s.inCloseFails, live, f.queries);
        Run(f.events + ci.events, ci.queries)
      else
        Written(s, path, live, q)
  }

  /** The worker thread once both streams are open: copy, then either report the failure or
      flush and report completion, then close both streams. */
  function Written(s: Stream, path: Path, live: nat -> bool, q: nat): Run {
    var c := CopyFrom(s.chunks, s.total, live, 0, q);
    var main := if c.exit == Threw || (c.exit == EndOfStream && s.failsAtEnd) then FileFail(live, c.queries)
                else Run(if live(c.queries) then [OnDone(path)] else [], c.queries + 1);
    var ci := Close(s.inCloseFails, live, main.queries);
    var co := Close(s.outCloseFails, live, ci.queries);
    Run(ProgressEvents(c.progress) + main.events + ci.events + co.events, co.queries)
  }

  /** The copy results of the loop from chunk i on, after the values already posted. */
  function After(posted: seq<int>, c: Copy): Copy {
    Copy(posted + c.progress, c.exit, c.queries)
  }

  /** The copy loop: read a chunk, write it, add its length to the bytes read so far,
      compute the progress, and post it if the page still exists, else leave the loop. */
  method CopyLoop(chunks: seq<nat>, total: int, live: nat -> bool, q0: nat)
    returns (posted: seq<int>, exit: Exit, q: nat)
    ensures Copy(posted, exit, q) == CopyFrom(chunks, total, live, 0, q0)
  {
    var sum: nat := 0;
    var i := 0;
    posted, exit, q := [], EndOfStream, q0;
    while i < |chunks|
      invariant 0 <= i <= |chunks|
      invariant sum == Sum(chunks[..i])
      invariant After(posted, CopyFrom(chunks, total, live, i, q)) == CopyFrom(chunks, total, live, 0, q0)
    {
      assert chunks[..i + 1][..i] == chunks[..i];
      sum := sum + chunks[i];
      if total == 0 {
        // the progress division throws
        exit := Threw;
        return;
      }
      var p := Percent(sum, total);
      var alive := live(q);
      q := q + 1;
      if !alive {
        exit := Stopped;
        return;
      }
      assert posted + ([p] + CopyFrom(chunks, total, live, i + 1, q).progress)
             == (posted + [p]) + CopyFrom(chunks, total, live, i + 1, q).progress;
      posted := posted + [p];
      i := i + 1;
    }
  }

  /** The worker thread: open the streams, copy, flush, report completion, close both
      streams, with every exception reported through downLoadFileFail. */
  method Transfer(body: DownloadBody, path: Path, live: nat -> bool, q0: nat)
    returns (events: seq<DownloadEvent>, q: nat)
    ensures Run(events, q) == TransferSpec(body, path, live, q0)
  {
    if body.NoBody? {
      events, q := ReportFileFail(live, q0);
      return;
    }
    var s := body.stream;
    if s.openFails {
      events, q := ReportFileFail(live, q0);
      var closing;
      closing, q := CloseStream(s.inCloseFails, live, q);
      events := events + closing;
      return;
    }
    events, q := WriteBody(s, path, live, q0);
  }

  /** The worker thread once both streams are open. */
  method WriteBody(s: Stream, path: Path, live: nat -> bool, q0: nat)
    returns (events: seq<DownloadEvent>, q: nat)
    ensures Run(events, q) == Written(s, path, live, q0)
  {
    var posted, exit;
    posted, exit, q := CopyLoop(s.chunks, s.total, live, q0);
    events := ProgressEvents(posted);
    var ending;
    if exit == Threw || (exit == EndOfStream && s.failsAtEnd) {
      ending, q := ReportFileFail(live, q);
    } else {
      // flush, then report completion if the page still exists
      ending := if live(q) then [OnDone(path)] else [];
      q := q + 1;
    }
    events := events + ending;
    var closing;
    closing, q := CloseStream(s.inCloseFails, live, q);
    events := events + closing;
    closing, q := CloseStream(s.outCloseFails, live, q);
    events := events + closing;
  }

  /** downLoadFileFail: one liveness query; onFail is posted only when the page exists. */
  method ReportFileFail(live: nat -> bool, q0: nat) returns (events: seq<DownloadEvent>, q: nat)
    ensures q == q0 + 1
    ensures events == [OnFail(FileFailed)] <==> live(q0)
    ensures events == [] <==> !live(q0)
    ensures Run(events, q) == FileFail(live, q0)
  {
    if live(q0) {
      events := [OnFail(FileFailed)];
    } else {
      events := [];
    }
    q := q0 + 1;
  }

  /** Closing a stream, reported through downLoadFileFail when it throws. */
  method CloseStream(fails: bool, live: nat -> bool, q0: nat) returns (events: seq<DownloadEvent>, q: nat)
    ensures !fails ==> events == [] && q == q0
    ensures fails ==> q == q0 + 1 && (events == [OnFail(FileFailed)] <==> live(q0))
    ensures fails ==> (events == [] <==> !live(q0))
    ensures Run(events, q) == Close(fails, live, q0)
  {
    events, q := [], q0;
    if fails {
      events, q := ReportFileFail(live, q0);
    }
  }

  lemma SumStep(s: seq<nat>, n: nat)
    requires n < |s|
    ensures Sum(s[..n + 1]) == Sum(s[..n]) + s[n]
  {
    assert s[..n + 1][..n] == s[..n];
  }

  lemma {:induction false} SumPrefixMonotone(s: seq<nat>, a: nat, b: nat)
    requires a <= b <= |s|
    ensures Sum(s[..a]) <= Sum(s[..b])
    decreases b - a
  {
    if a < b {
      SumPrefixMonotone(s, a, b - 1);
      assert s[..b][..b - 1] == s[..b - 1];
    }
  }

  /** The k-th progress value posted is the percentage of the bytes read up to and
      including the k-th chunk, at most one value per chunk. */
  lemma {:induction false} ProgressIsPercentOfBytesRead(chunks: seq<nat>, total: int, live: nat -> bool, i: nat, q: nat)
    requires i <= |chunks| && total != 0
    ensures PercentsFrom(chunks, total, i, CopyFrom(chunks, total, live, i, q).progress)
    decreases |chunks| - i
  {
    if i < |chunks| && live(q) {
      ProgressIsPercentOfBytesRead(chunks, total, live, i + 1, q + 1);
    }
  }

  /** ps holds, in order, the percentages after each chunk from chunk i on. */
  ghost predicate PercentsFrom(chunks: seq<nat>, total: int, i: nat, ps: seq<int>)
    requires total != 0
  {
    && |ps| <= |chunks| - i
    && forall k :: 0 <= k < |ps| ==> ps[k] == Percent(Sum(chunks[..i + k + 1]), total)
  }

  lemma PercentMonotone(a: int, b: int, total: int)
    requires 0 <= a <= b <= total && total > 0
    ensures 0 <= Percent(a, total) <= Percent(b, total) <= 100
  {
    DivMonotone(a * 100, b * 100, total);
    DivMonotone(b * 100, total * 100, total);
    MulDivCancel(100, total);
  }

  lemma MulDivCancel(k: int, d: int)
    requires d > 0
    ensures d * k / d == k
  {
    var q, r := d * k / d, d * k % d;
    assert d * k == d * q + r && 0 <= r < d;
    if q < k {
      MulMonotone(d, q + 1, k);
      assert false;
    } else if q > k {
      MulMonotone(d, k + 1, q);
      assert false;
    }
  }

  lemma DivMonotone(x: int, y: int, d: int)
    requires 0 <= x <= y && d > 0
    ensures 0 <= x / d <= y / d
  {
    var qx, qy := x / d, y / d;
    assert x == d * qx + x % d && 0 <= x % d < d;
    assert y == d * qy + y % d && 0 <= y % d < d;
    if qx > qy {
      MulMonotone(d, qy + 1, qx);
      assert false;
    }
  }

  lemma MulMonotone(d: int, a: int, b: int)
    requires d >= 0 && a <= b
    ensures d * a <= d * b
  {
  }

  /** Two progress values computed after chunks j and k, j before k, are ordered and lie
      in 0..100 when the body does not exceed its positive declared length. */
  lemma PercentsOrdered(chunks: seq<nat>, total: int, j: nat, k: nat)
    requires total > 0 && Sum(chunks) <= total && j <= k < |chunks|
    ensures 0 <= Percent(Sum(chunks[..j + 1]), total) <= Percent(Sum(chunks[..k + 1]), total) <= 100
  {
    SumPrefixMonotone(chunks, j + 1, k + 1);
    SumPrefixMonotone(chunks, k + 1, |chunks|);
    assert Sum(chunks[..|chunks|]) <= total by { assert chunks[..|chunks|] == chunks; }
    PercentMonotone(Sum(chunks[..j + 1]), Sum(chunks[..k + 1]), total);
  }

  /** Percentages of successive prefixes of a body that does not exceed its positive
      declared length lie in 0..100 and never decrease. */
  lemma PrefixPercentsOrdered(chunks: seq<nat>, total: int, ps: seq<int>)
    requires total > 0 && Sum(chunks) <= total && PercentsFrom(chunks, total, 0, ps)
    ensures forall k :: 0 <= k < |ps| ==> 0 <= ps[k] <= 100
    ensures forall j, k :: 0 <= j < k < |ps| ==> ps[j] <= ps[k]
  {
    forall k | 0 <= k < |ps|
      ensures 0 <= ps[k] <= 100
    {
      assert ps[k] == Percent(Sum(chunks[..k + 1]), total);
      PercentsOrdered(chunks, total, k, k);
    }
    forall j, k | 0 <= j < k < |ps|
      ensures ps[j] <= ps[k]
    {
      assert ps[j] == Percent(Sum(chunks[..j + 1]), total);
      assert ps[k] == Percent(Sum(chunks[..k + 1]), total);
      PercentsOrdered(chunks, total, j, k);
    }
  }

  /** With a positive declared length that the body does not exceed, the posted progress
      values lie in 0..100 and never decrease. */
  lemma ProgressNonDecreasing(chunks: seq<nat>, total: int, live: nat -> bool, q: nat)
    requires total > 0 && Sum(chunks) <= total
    ensures var ps := CopyFrom(chunks, total, live, 0, q).progress;
            && (forall k :: 0 <= k < |ps| ==> 0 <= ps[k] <= 100)
            && (forall j, k :: 0 <= j < k < |ps| ==> ps[j] <= ps[k])
  {
    ProgressIsPercentOfBytesRead(chunks, total, live, 0, q);
    PrefixPercentsOrdered(chunks, total, CopyFrom(chunks, total, live, 0, q).progress);
  }

  /** The loop leaves at the first liveness query answered false, after posting one
      progress value per chunk before it. */
  lemma {:induction false} StopsAtFirstDeadCheck(chunks: seq<nat>, total: int, live: nat -> bool, i: nat, q: nat, j: nat)
    requires total != 0 && i + j < |chunks|
    requires forall k :: q <= k < q + j ==> live(k)
    requires !live(q + j)
    ensures var c := CopyFrom(chunks, total, live, i, q);
            c.exit == Stopped && |c.progress| == j && c.queries == q + j + 1
    decreases j
  {
    if j > 0 {
      assert live(q);
      StopsAtFirstDeadCheck(chunks, total, live, i + 1, q + 1, j - 1);
    }
  }

  /** While the page stays alive the loop reads to the end and posts one progress value per
      chunk, repeated values included. */
  lemma {:induction false} LiveCopyReadsToEnd(chunks: seq<nat>, total: int, live: nat -> bool, i: nat, q: nat)
    requires total != 0 && i <= |chunks|
    requires forall k :: q <= k < q + |chunks| - i ==> live(k)
    ensures var c := CopyFrom(chunks, total, live, i, q);
            c.exit == EndOfStream && |c.progress| == |chunks| - i && c.queries == q + |chunks| - i
    decreases |chunks| - i
  {
    if i < |chunks| {
      assert live(q);
      LiveCopyReadsToEnd(chunks, total, live, i + 1, q + 1);
    }
  }

  /** A transfer that starts after the page is gone posts nothing at all. */
  lemma NoCallbackOnceTagGone(body: DownloadBody, path: Path, live: nat -> bool, q: nat)
    requires forall k :: k >= q ==> !live(k)
    ensures TransferSpec(body, path, live, q).events == []
  {
    if body.Body? && !body.stream.openFails {
      var s := body.stream;
      var c := CopyFrom(s.chunks, s.total, live, 0, q);
      assert c.progress == [];
      assert c.queries >= q;
    }
  }

  /** onDone is posted, with the target path, exactly when the streams opened, neither the
      copy nor the flush threw, and the liveness query made after the loop (whether the loop
      ran to the end or left early) found the page. */
  lemma DoneOnlyWhenLiveAfterLoop(s: Stream, path: Path, p: Path, live: nat -> bool, q: nat)
    ensures var c := CopyFrom(s.chunks, s.total, live, 0, q);
            OnDone(p) in TransferSpec(Body(s), path, live, q).events
            <==> && p == path && !s.openFails && c.exit != Threw
                 && !(c.exit == EndOfStream && s.failsAtEnd) && live(c.queries)
  {
    var c := CopyFrom(s.chunks, s.total, live, 0, q);
    var events := TransferSpec(Body(s), path, live, q).events;
    if !s.openFails {
      var main := if c.exit == Threw || (c.exit == EndOfStream && s.failsAtEnd) then FileFail(live, c.queries)
                  else Run(if live(c.queries) then [OnDone(path)] else [], c.queries + 1);
      var ci := Close(s.inCloseFails, live, main.queries);
      var co := Close(s.outCloseFails, live, ci.queries);
      assert events == ProgressEvents(c.progress) + main.events + ci.events + co.events;
      assert OnDone(p) !in ProgressEvents(c.progress);
      assert OnDone(p) !in ci.events && OnDone(p) !in co.events;
    }
  }

  /** A transfer with no I/O failure, a non-zero declared length and the page alive
      throughout posts one progress value per chunk and then onDone with the target path. */
  lemma CompleteTransfer(s: Stream, path: Path, live: nat -> bool, q: nat)
    requires !s.openFails && !s.failsAtEnd && !s.inCloseFails && !s.outCloseFails && s.total != 0
    requires forall k :: k >= q ==> live(k)
    ensures var c := CopyFrom(s.chunks, s.total, live, 0, q);
            && |c.progress| == |s.chunks|
            && TransferSpec(Body(s), path, live, q).events == ProgressEvents(c.progress) + [OnDone(path)]
  {
    LiveCopyReadsToEnd(s.chunks, s.total, live, 0, q);
  }

  /** 10,000 bytes in chunks of 2,048 with the page alive: five progress values, then onDone. */
  lemma TenThousandBytes(path: Path)
    ensures var s := Stream([2048, 2048, 2048, 2048, 1808], 10000, false, false, false, false);
            TransferSpec(Body(s), path, k => true, 1).events
            == [OnProgress(20), OnProgress(40), OnProgress(61), OnProgress(81), OnProgress(100), OnDone(path)]
  {
    var s := Stream([2048, 2048, 2048, 2048, 1808], 10000, false, false, false, false);
    var live: nat -> bool := k => true;
    TenThousandBytesCopy(live);
    CompleteTransfer(s, path, live, 1);
    var ps := [20, 40, 61, 81, 100];
    assert ProgressEvents(ps) == [OnProgress(20), OnProgress(40), OnProgress(61), OnProgress(81), OnProgress(100)];
  }

  /** The copy loop over the 10,000-byte body posts 20, 40, 61, 81 and 100. */
  lemma TenThousandBytesCopy(live: nat -> bool)
    requires forall k :: k >= 1 ==> live(k)
    ensures CopyFrom([2048, 2048, 2048, 2048, 1808], 10000, live, 0, 1).progress == [20, 40, 61, 81, 100]
  {
    var chunks: seq<nat> := [2048, 2048, 2048, 2048, 1808];
    var c := CopyFrom(chunks, 10000, live, 0, 1);
    LiveCopyReadsToEnd(chunks, 10000, live, 0, 1);
    PrefixSums(chunks);
    ProgressIsPercentOfBytesRead(chunks, 10000, live, 0, 1);
    assert Percent(2048, 10000) == 20 && Percent(4096, 10000) == 40 && Percent(6144, 10000) == 61;
    assert Percent(8192, 10000) == 81 && Percent(10000, 10000) == 100;
  }

  /** The bytes read after each chunk of the 10,000-byte body. */
  lemma PrefixSums(chunks: seq<nat>)
    requires chunks == [2048, 2048, 2048, 2048, 1808]
    ensures Sum(chunks[..1]) == 2048 && Sum(chunks[..2]) == 4096 && Sum(chunks[..3]) == 6144
    ensures Sum(chunks[..4]) == 8192 && Sum(chunks[..5]) == 10000
  {
    assert chunks[..0] == [];
    SumStep(chunks, 0); SumStep(chunks, 1); SumStep(chunks, 2); SumStep(chunks, 3); SumStep(chunks, 4);
  }

  /** With the unknown declared length -1, the progress is toInt() of minus a hundred times
      the bytes read: exactly that up to 21,474,836 bytes, after which it wraps modulo 2^32,
      first to positive values (from 21,474,837 bytes) and back to negative ones (from
      42,949,673 bytes). */
  lemma UnknownLengthWraps(sum: nat)
    ensures Percent(sum, -1) == ToInt(-100 * sum)
    ensures 1 <= sum <= 21474836 ==> Percent(sum, -1) == -100 * sum
    ensures Percent(21474837, -1) == 2147483596 && Percent(42949672, -1) == 96
    ensures Percent(42949673, -1) == -4
  {
  }

  /** Progress is posted for every chunk, even when the percentage has not moved. */
  lemma RepeatedProgressPosted(path: Path)
    ensures var s := Stream([1, 1], 1000, false, false, false, false);
            TransferSpec(Body(s), path, k => true, 1).events == [OnProgress(0), OnProgress(0), OnDone(path)]
  {
    var chunks: seq<nat> := [1, 1];
    var live: nat -> bool := k => true;
    assert chunks[..0] == [];
    SumStep(chunks, 0); SumStep(chunks, 1);
    var c := CopyFrom(chunks, 1000, live, 0, 1);
    LiveCopyReadsToEnd(chunks, 1000, live, 0, 1);
    ProgressIsPercentOfBytesRead(chunks, 1000, live, 0, 1);
    assert c.progress == [0, 0];
  }

  /** A declared length of 0 makes the first chunk's progress division throw: no progress,
      and the failure is reported when the page is alive. */
  lemma ZeroLengthThrows(chunks: seq<nat>, path: Path, live: nat -> bool, q: nat)
    requires |chunks| > 0 && live(q)
    ensures TransferSpec(Body(Stream(chunks, 0, false, false, false, false)), path, live, q).events
            == [OnFail(FileFailed)]
  {
  }

  /** sendDownloadRequest: without a network onFail is called and nothing is registered;
      otherwise the call is registered under its tag. */
  method SendDownloadRequest(rm: RequestManager, tag: Tag, call: CallId, networkAvailable: bool)
    returns (events: seq<DownloadEvent>)
    requires rm.Valid()
    modifies rm
    ensures rm.Valid()
    ensures !networkAvailable ==> events == [OnFail(NetworkDown)] && unchanged(rm)
    ensures networkAvailable ==> events == [] && rm.calls == Register(old(rm.calls), tag, call)
    ensures rm.subscriptions == old(rm.subscriptions) && rm.cancelLog == old(rm.cancelLog)
    ensures rm.disposed == old(rm.disposed)
  {
    if !networkAvailable {
      events := [OnFail(NetworkDown)];
      return;
    }
    rm.AddCall(tag, call);
    events := [];
  }

  /** The enqueue callbacks of a download. A completion whose tag is no longer live is
      dropped; otherwise the call is unregistered at once (not when the copy ends), a
      failure or a non-200 status is reported with its band, and a 200 response is written
      to the resolved target if the page still exists (liveness query 0), the worker's
      queries following from 1. */
  method OnDownloadCompletion(rm: RequestManager, tag: Tag, call: CallId, c: DownloadCompletion,
                              dir: string, fileName: string, dirReady: bool, mkdirSucceeds: bool,
                              fileExists: bool, now: nat, live: nat -> bool)
    returns (events: seq<DownloadEvent>)
    requires rm.Valid()
    modifies rm
    ensures rm.Valid()
    ensures !old(rm.HasRequest(tag)) ==> events == [] && unchanged(rm)
    ensures old(rm.HasRequest(tag)) ==> rm.calls == Unregister(old(rm.calls), tag, call)
    ensures rm.subscriptions == old(rm.subscriptions) && rm.cancelLog == old(rm.cancelLog)
    ensures rm.disposed == old(rm.disposed)
    ensures old(rm.HasRequest(tag)) && c.Failed? ==> events == [OnFail(DownloadFailed(c.reason))]
    ensures old(rm.HasRequest(tag)) && c.Responded? && c.status != 200 ==>
              events == [OnFail(HttpStatus(c.status, Dispatch.StatusMessage(c.status)))]
    ensures old(rm.HasRequest(tag)) && c.Responded? && c.status == 200 ==>
              match ResolveTarget(dir, fileName, dirReady, mkdirSucceeds, fileExists, now)
              case Abort(aborted) => events == aborted
              case WriteTo(path) =>
                events == if live(0) then [OnStart] + TransferSpec(c.body, path, live, 1).events else []
  {
    if !rm.HasRequest(tag) {
      return [];
    }
    rm.RemoveCall(tag, call);
    match c
    case Failed(reason) =>
      events := [OnFail(DownloadFailed(reason))];
    case Responded(status, body) =>
      if status != 200 {
        events := [OnFail(HttpStatus(status, Dispatch.StatusMessage(status)))];
        return;
      }
      var target := ResolveTarget(dir, fileName, dirReady, mkdirSucceeds, fileExists, now);
      match target
      case Abort(aborted) =>
        events := aborted;
      case WriteTo(path) =>
        if live(0) {
          var posted, _ := Transfer(body, path, live, 1);
          events := [OnStart] + posted;
        } else {
          events := [];
        }
  }
}
