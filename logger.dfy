/** The logger package: four levels, a threshold that decides which levels
    reach standard output, the zero-padded decimal rendering it shares with
    Go's log package, and the rewriting of a "file.go:NN: msg" line into
    "ts LEVEL file:NN : msg". */
module Logger {
  import opened Decimal

  const LevelError: int := 0
  const LevelWarn: int := 1
  const LevelInfo: int := 2
  const LevelTrace: int := 3

  /** The label of each level, indexed by the level. */
  const Prefix: seq<string> := ["ERROR", "WARN", "INFO", "TRACE"]

  /** The one lock the writers of a configuration share. */
  class Mutex {
    constructor() {}
  }

  /** A writer that stamps each line with a time and a level label and
      rewrites the file:line header that log.Lshortfile puts in front. */
  class Transformer {
    const mu: Mutex
    const level: string
    const hasFF: bool
    const showNum: bool

    constructor(mu: Mutex, level: string, hasFF: bool, showNum: bool)
      ensures this.mu == mu && this.level == level
      ensures this.hasFF == hasFF && this.showNum == showNum
    {
      this.mu := mu;
      this.level := level;
      this.hasFF := hasFF;
      this.showNum := showNum;
    }

    /** The bytes Write hands to standard output for the log line p, with
        ts the formatted current time. */
    method Write(ts: string, p: string) returns (line: string)
      requires Splittable(hasFF, showNum, p)
      ensures line == Line(ts, level, hasFF, showNum, p)
    {
      var b: string := [];
      var sep := 0;
      b := b + ts;
      assert b == ts;
      b := b + " ";
      b := b + level;
      b := b + " ";
      if hasFF {
        var fi := IndexOf(p, ':');
        if fi > 0 {
          var si := IndexOf(p[fi + 1..], ':');
          if si > 0 && showNum {
            sep := fi + 1 + si;
            b := b + p[..sep];
            sep := sep + 2;
          } else {
            sep := fi;
            b := b + p[..sep];
            sep := sep + si + 3;
          }
        } else {
          b := b + "???";
        }
      }
      assert b == ts + " " + level + " " + Header(hasFF, showNum, p) && sep == BodyStart(hasFF, showNum, p);
      b := b + " : ";
      b := b + p[sep..];
      line := b;
    }
  }

  /** An output slot: io.Discard, or a transformer to standard output. */
  datatype Writer = Discard | Sink(t: Transformer)

  /** The four slots hold transformers for exactly the levels up to the
      threshold, labelled by their level, all showing the file header, all
      with the same line-number setting and all sharing one lock. */
  predicate Configured(output: seq<Writer>, threshold: int, showNum: bool) {
    && |output| == 4
    && (forall i :: 0 <= i < 4 ==> (output[i].Sink? <==> i <= threshold))
    && (forall i :: 0 <= i < 4 && output[i].Sink? ==>
          output[i].t.level == Prefix[i] && output[i].t.hasFF && output[i].t.showNum == showNum)
    && (forall i, j :: 0 <= i < 4 && 0 <= j < 4 && output[i].Sink? && output[j].Sink? ==>
          output[i].t.mu == output[j].t.mu)
  }

  /** createOutputIO: slot i gets a new transformer labelled Prefix[i] while
      i <= threshold; the loop stops at the first slot above it. */
  method CreateOutputIO(threshold: int, showNum: bool) returns (output: array<Writer>)
    ensures fresh(output)
    ensures Configured(output[..], threshold, showNum)
    ensures forall i :: 0 <= i < 4 && output[i].Sink? ==> fresh(output[i].t) && fresh(output[i].t.mu)
  {
    output := new Writer[4](_ => Discard);
    var mu := new Mutex();
    var i := 0;
    while i < output.Length
      invariant 0 <= i <= 4
      invariant forall k :: 0 <= k < i ==>
        k <= threshold && output[k].Sink? && output[k].t.level == Prefix[k] && output[k].t.hasFF
        && output[k].t.showNum == showNum && output[k].t.mu == mu && fresh(output[k].t)
      invariant forall k :: i <= k < 4 ==> output[k] == Discard
    {
      if i <= threshold {
        var t := new Transformer(mu, Prefix[i], true, showNum);
        output[i] := Sink(t);
      } else {
        break;
      }
      i := i + 1;
    }
  }

  /** SetLevelString's mapping: the four upper-case labels name their level,
      every other string names LevelInfo. */
  function LevelOf(s: string): (level: int)
    ensures LevelError <= level <= LevelTrace
    ensures s in Prefix ==> Prefix[level] == s
    ensures s !in Prefix ==> level == LevelInfo
  {
    match s
    case "ERROR" => LevelError
    case "WARN" => LevelWarn
    case "INFO" => LevelInfo
    case "TRACE" => LevelTrace
    case _ => LevelInfo
  }

  /** The package's mutable state: the threshold and the four writers the
      Error, Warn, Info and Trace loggers write to. */
  class Logger {
    var threshold: int
    var writers: seq<Writer>

    ghost predicate Valid()
      reads this
    {
      LevelError <= threshold <= LevelTrace && Configured(writers, threshold, threshold > LevelWarn)
    }

    /** Package initialisation: SetLevel(LevelInfo). */
    constructor()
      ensures Valid() && threshold == LevelInfo
    {
      threshold := LevelInfo;
      writers := [Discard, Discard, Discard, Discard];
      new;
      var _ := SetLevel(threshold);
    }

    /** Sets the threshold, clamped to LevelTrace, rebuilds the writers and
        returns the previous threshold; a negative level changes nothing. */
    method SetLevel(level: int) returns (previous: int)
      modifies this
      ensures previous == old(threshold)
      ensures level < 0 ==> threshold == old(threshold) && writers == old(writers)
      ensures level >= 0 ==> threshold <= LevelTrace
      ensures level >= 0 ==> threshold == level || (level > LevelTrace && threshold == LevelTrace)
      ensures level >= 0 ==> Configured(writers, threshold, threshold > LevelWarn)
      ensures level >= 0 ==> forall i :: 0 <= i < 4 && writers[i].Sink? ==> fresh(writers[i].t)
      ensures old(Valid()) || level >= 0 ==> Valid()
    {
      var lv := level;
      if lv < 0 {
        return threshold;
      } else if lv > LevelTrace {
        lv := LevelTrace;
      }
      previous := threshold;
      var showNum := lv > LevelWarn;
      threshold := lv;
      var output := CreateOutputIO(threshold, showNum);
      writers := output[..];
    }

    /** SetLevel with the level named by a label. */
    method SetLevelString(level: string) returns (previous: int)
      modifies this
      ensures previous == old(threshold)
      ensures threshold == LevelOf(level) && Valid()
    {
      previous := SetLevel(LevelOf(level));
    }
  }

  /** k copies of '0'. */
  function Zeros(k: nat): (z: seq<char>)
    ensures |z| == k && forall i :: 0 <= i < k ==> z[i] == '0'
  {
    seq(k, _ => '0')
  }

  /** Digits d left-padded with '0' to at least wid characters. */
  function ZeroPad(d: seq<char>, wid: int): (s: seq<char>)
    ensures |s| == if wid > |d| then wid else |d|
  {
    if wid > |d| then Zeros(wid - |d|) + d else d
  }

  /** One step of itoa: the padded text of n is the padded text of n / 10,
      one digit narrower, followed by the last digit of n. */
  lemma ZeroPadStep(n: nat, wid: int)
    requires n >= 10 || wid > 1
    ensures ZeroPad(Dec(n), wid) == ZeroPad(Dec(n / 10), wid - 1) + [DigitChar(n % 10)]
  {
    if n >= 10 {
      ZeroPadAppend(Dec(n / 10), DigitChar(n % 10), wid);
    } else {
      ZeroPadUnit(n, wid);
    }
  }

  /** Padding a text one character longer to one more column. */
  lemma ZeroPadAppend(d: seq<char>, c: char, wid: int)
    ensures ZeroPad(d + [c], wid) == ZeroPad(d, wid - 1) + [c]
  {
    if wid > |d| + 1 {
      var z := Zeros(wid - |d| - 1);
      assert z + (d + [c]) == (z + d) + [c];
    }
  }

  /** A single digit padded to wid is wid - 1 zeros and the digit. */
  lemma ZeroPadUnit(n: nat, wid: int)
    requires n < 10 && wid > 1
    ensures ZeroPad(Dec(n), wid) == ZeroPad(Dec(n / 10), wid - 1) + [DigitChar(n % 10)]
  {
    assert Dec(0) == ['0'];
    assert Zeros(wid - 1) == Zeros(wid - 2) + ['0'];
    if wid > 2 {
      assert ZeroPad(['0'], wid - 1) == Zeros(wid - 2) + ['0'];
    }
  }

  /** itoa: appends to buf the decimal digits of i, zero-padded to wid,
      assembled backwards in a 20-byte array. */
  method Itoa(buf: seq<char>, i: int64, wid: int) returns (r: seq<char>)
    requires i >= 0 && wid <= 20
    ensures r == buf + ZeroPad(Dec(i), wid)
  {
    PadFits(i, wid);
    var b := new char[20];
    var bp := b.Length - 1;
    var n: nat, w := i, wid;
    ghost var done: seq<char> := [];
    while n >= 10 || w > 1
      invariant 0 <= bp < 20 && |done| == 19 - bp
      invariant done == b[bp + 1..]
      invariant ZeroPad(Dec(i), wid) == ZeroPad(Dec(n), w) + done
      invariant |ZeroPad(Dec(n), w)| <= bp + 1
      decreases bp
    {
      PadStep(n, w, done);
      w := w - 1;
      var q := n / 10;
      b[bp] := DigitChar(n - q * 10);
      assert b[bp + 1..] == done;
      done := [b[bp]] + done;
      bp := bp - 1;
      n := q;
    }
    PadLast(n, w);
    b[bp] := DigitChar(n);
    assert b[bp + 1..] == done;
    done := [b[bp]] + done;
    assert b[bp..] == done;
    r := buf + b[bp..];
  }

  /** The padded text of an int64 fits itoa's 20-byte array. */
  lemma PadFits(i: int64, wid: int)
    requires i >= 0 && wid <= 20
    ensures |ZeroPad(Dec(i), wid)| <= 20
  {
    Int64Digits(i);
  }

  /** The last digit itoa writes, once no padding is left. */
  lemma PadLast(n: nat, wid: int)
    requires n < 10 && wid <= 1
    ensures ZeroPad(Dec(n), wid) == [DigitChar(n)]
  {
  }

  /** ZeroPadStep with the text already assembled to its right. */
  lemma PadStep(n: nat, wid: int, tail: seq<char>)
    requires n >= 10 || wid > 1
    ensures 1 <= |ZeroPad(Dec(n / 10), wid - 1)| == |ZeroPad(Dec(n), wid)| - 1
    ensures ZeroPad(Dec(n), wid) + tail
      == ZeroPad(Dec(n / 10), wid - 1) + ([DigitChar(n - n / 10 * 10)] + tail)
  {
    assert n - n / 10 * 10 == n % 10;
    var c := DigitChar(n % 10);
    var pre := ZeroPad(Dec(n / 10), wid - 1);
    ZeroPadStep(n, wid);
    assert (pre + [c]) + tail == pre + ([c] + tail);
  }

  /** Leading zeros do not change the value of a digit string. */
  lemma {:induction false} LeadingZeros(k: nat, d: seq<char>)
    requires AllDigits(d)
    ensures AllDigits(Zeros(k) + d) && ValueOf(Zeros(k) + d) == ValueOf(d)
    decreases |d|
  {
    var s := Zeros(k) + d;
    if d == [] {
      assert s == Zeros(k);
      ZerosValue(k);
    } else {
      LeadingZeros(k, d[..|d| - 1]);
      assert s[..|s| - 1] == Zeros(k) + d[..|d| - 1];
    }
  }

  lemma {:induction false} ZerosValue(k: nat)
    ensures AllDigits(Zeros(k)) && ValueOf(Zeros(k)) == 0
  {
    if k > 0 {
      ZerosValue(k - 1);
      assert Zeros(k)[..k - 1] == Zeros(k - 1);
    }
  }

  /** The padded text reads back as the number it renders. */
  lemma ZeroPadValue(n: nat, wid: int)
    ensures AllDigits(ZeroPad(Dec(n), wid)) && ValueOf(ZeroPad(Dec(n), wid)) == n
  {
    DecSpec(n);
    if wid > |Dec(n)| {
      LeadingZeros(wid - |Dec(n)|, Dec(n));
    }
  }

  /** formatTime's layout: YYYY-MM-DD HH:MM:SS.mmm, each field zero-padded. */
  function TimeText(year: nat, month: nat, day: nat, hour: nat, minute: nat, second: nat, nanosecond: nat): string {
    ZeroPad(Dec(year), 4) + "-" + ZeroPad(Dec(month), 2) + "-" + ZeroPad(Dec(day), 2) + " "
    + ZeroPad(Dec(hour), 2) + ":" + ZeroPad(Dec(minute), 2) + ":" + ZeroPad(Dec(second), 2) + "."
    + ZeroPad(Dec(nanosecond / 1000000), 3)
  }

  /** formatTime for a local time given by its calendar and clock components. */
  method FormatTime(year: int64, month: int64, day: int64, hour: int64, minute: int64, second: int64, nanosecond: int64)
    returns (b: seq<char>)
    requires year >= 0 && month >= 0 && day >= 0 && hour >= 0 && minute >= 0 && second >= 0 && nanosecond >= 0
    ensures b == TimeText(year, month, day, hour, minute, second, nanosecond)
  {
    b := [];
    b := Itoa(b, year, 4);
    assert b == ZeroPad(Dec(year), 4);
    b := b + ['-'];
    b := Itoa(b, month, 2);
    b := b + ['-'];
    b := Itoa(b, day, 2);
    b := b + [' '];
    b := Itoa(b, hour, 2);
    b := b + [':'];
    b := Itoa(b, minute, 2);
    b := b + [':'];
    b := Itoa(b, second, 2);
    b := b + ['.'];
    b := Itoa(b, nanosecond / 1000000, 3);
  }

  /** A number below 10^k padded to k digits is exactly k digits wide. */
  lemma PadWidth(n: nat, k: nat)
    requires k >= 1 && n < Pow10(k)
    ensures |ZeroPad(Dec(n), k)| == k
  {
    DecLengthBound(n, k);
  }

  /** For years up to 9999 and in-range clock fields the text is 23 bytes,
      the separators sit at fixed offsets and every field reads back. */
  lemma TimeTextLayout(year: nat, month: nat, day: nat, hour: nat, minute: nat, second: nat, nanosecond: nat)
    requires year <= 9999 && 1 <= month <= 12 && 1 <= day <= 31
    requires hour <= 23 && minute <= 59 && second <= 59 && nanosecond <= 999_999_999
    ensures var t := TimeText(year, month, day, hour, minute, second, nanosecond);
      && |t| == 23
      && t[4] == '-' && t[7] == '-' && t[10] == ' ' && t[13] == ':' && t[16] == ':' && t[19] == '.'
      && AllDigits(t[0..4]) && ValueOf(t[0..4]) == year
      && AllDigits(t[5..7]) && ValueOf(t[5..7]) == month
      && AllDigits(t[8..10]) && ValueOf(t[8..10]) == day
      && AllDigits(t[11..13]) && ValueOf(t[11..13]) == hour
      && AllDigits(t[14..16]) && ValueOf(t[14..16]) == minute
      && AllDigits(t[17..19]) && ValueOf(t[17..19]) == second
      && AllDigits(t[20..23]) && ValueOf(t[20..23]) == nanosecond / 1000000
  {
    assert Pow10(2) == 100 && Pow10(3) == 1000 && Pow10(4) == 10000;
    var ms := nanosecond / 1000000;
    PadWidth(year, 4);
    PadWidth(month, 2);
    PadWidth(day, 2);
    PadWidth(hour, 2);
    PadWidth(minute, 2);
    PadWidth(second, 2);
    PadWidth(ms, 3);
    ZeroPadValue(year, 4);
    ZeroPadValue(month, 2);
    ZeroPadValue(day, 2);
    ZeroPadValue(hour, 2);
    ZeroPadValue(minute, 2);
    ZeroPadValue(second, 2);
    ZeroPadValue(ms, 3);
    Layout(ZeroPad(Dec(year), 4), ZeroPad(Dec(month), 2), ZeroPad(Dec(day), 2),
      ZeroPad(Dec(hour), 2), ZeroPad(Dec(minute), 2), ZeroPad(Dec(second), 2), ZeroPad(Dec(ms), 3));
  }

  /** Where the seven fields and six separators of a formatted time sit. */
  lemma Layout(y: string, mo: string, d: string, h: string, mi: string, s: string, f: string)
    requires |y| == 4 && |mo| == 2 && |d| == 2 && |h| == 2 && |mi| == 2 && |s| == 2 && |f| == 3
    ensures var t := y + "-" + mo + "-" + d + " " + h + ":" + mi + ":" + s + "." + f;
      && |t| == 23
      && t[4] == '-' && t[7] == '-' && t[10] == ' ' && t[13] == ':' && t[16] == ':' && t[19] == '.'
      && t[0..4] == y && t[5..7] == mo && t[8..10] == d
      && t[11..13] == h && t[14..16] == mi && t[17..19] == s && t[20..23] == f
  {
    var date := y + "-" + mo + "-" + d;
    var clock := h + ":" + mi + ":" + s;
    var t := y + "-" + mo + "-" + d + " " + h + ":" + mi + ":" + s + "." + f;
    assert t == date + " " + clock + "." + f;
    assert date[0..4] == y && date[5..7] == mo && date[8..10] == d;
    assert clock[0..2] == h && clock[3..5] == mi && clock[6..8] == s;
  }

  /** bytes.IndexByte: the first position of c in s, or -1. */
  function IndexOf(s: string, c: char): (k: int)
    ensures -1 <= k < |s|
    ensures k >= 0 ==> s[k] == c && forall j :: 0 <= j < k ==> s[j] != c
    ensures k == -1 ==> forall j :: 0 <= j < |s| ==> s[j] != c
    decreases |s|
  {
    if s == [] then -1
    else if s[0] == c then 0
    else
      var k := IndexOf(s[1..], c);
      if k == -1 then -1 else k + 1
  }

  /** The file header Write keeps: "???" when no ':' follows the first
      byte, the text up to the second ':' with line numbers shown, and the
      text up to the first ':' otherwise. */
  function Header(hasFF: bool, showNum: bool, p: string): string {
    if !hasFF then []
    else
      var fi := IndexOf(p, ':');
      if fi <= 0 then "???"
      else
        var si := IndexOf(p[fi + 1..], ':');
        if si > 0 && showNum then p[..fi + 1 + si] else p[..fi]
  }

  /** Where the message body starts in p. */
  function BodyStart(hasFF: bool, showNum: bool, p: string): (sep: nat) {
    if !hasFF then 0
    else
      var fi := IndexOf(p, ':');
      if fi <= 0 then 0
      else
        var si := IndexOf(p[fi + 1..], ':');
        if si > 0 && showNum then fi + 1 + si + 2 else fi + si + 3
  }

  /** The body start lies within the line, so slicing it cannot panic. */
  predicate Splittable(hasFF: bool, showNum: bool, p: string) {
    BodyStart(hasFF, showNum, p) <= |p|
  }

  /** The line Write produces. */
  function Line(ts: string, level: string, hasFF: bool, showNum: bool, p: string): string
    requires Splittable(hasFF, showNum, p)
  {
    ts + " " + level + " " + Header(hasFF, showNum, p) + " : " + p[BodyStart(hasFF, showNum, p)..]
  }

  /** When the first ':' is not after the first byte (there is none after
      it, or the line starts with one) the header is "???" and the whole
      line is kept; the body starts at 0 only then. */
  lemma NoFileHeader(showNum: bool, p: string)
    ensures NoFile(p) ==> Header(true, showNum, p) == "???" && BodyStart(true, showNum, p) == 0
    ensures BodyStart(true, showNum, p) == 0 ==> NoFile(p)
  {
  }

  /** No ':' after the first byte, or a ':' as the first byte. */
  predicate NoFile(p: string) {
    (forall k :: 0 < k < |p| ==> p[k] != ':') || (|p| > 0 && p[0] == ':')
  }

  /** Two colons at c1 < c2 with something between them: the body starts two
      bytes after the second whatever showNum says; the header ends at the
      second colon with line numbers shown and at the first otherwise. */
  lemma TwoColons(p: string, c1: nat, c2: nat)
    requires 0 < c1 && c1 + 1 < c2 < |p| && p[c1] == ':' && p[c2] == ':'
    requires forall k :: 0 <= k < c2 && k != c1 ==> p[k] != ':'
    ensures BodyStart(true, true, p) == c2 + 2 && BodyStart(true, false, p) == c2 + 2
    ensures Header(true, true, p) == p[..c2] && Header(true, false, p) == p[..c1]
  {
    assert IndexOf(p, ':') == c1;
    var rest := p[c1 + 1..];
    assert rest[c2 - c1 - 1] == ':';
    assert forall j :: 0 <= j < c2 - c1 - 1 ==> rest[j] == p[c1 + 1 + j];
    assert IndexOf(rest, ':') == c2 - c1 - 1;
  }

  /** A line carrying log.Lshortfile's "file:NN: " header becomes
      "ts LEVEL file:NN : msg", or "ts LEVEL file : msg" without line
      numbers. */
  lemma ShortFileLine(ts: string, level: string, showNum: bool, file: string, lineNo: nat, msg: string)
    requires |file| > 0 && ':' !in file
    ensures var p := file + ":" + Dec(lineNo) + ": " + msg;
      && Splittable(true, showNum, p)
      && Line(ts, level, true, showNum, p)
         == ts + " " + level + " " + (if showNum then file + ":" + Dec(lineNo) else file) + " : " + msg
  {
    var head := file + ":" + Dec(lineNo);
    var p := head + ": " + msg;
    HeaderColons(file, lineNo);
    forall k | 0 <= k < |head| && k != |file| ensures p[k] != ':' {
      assert p[k] == head[k];
    }
    TwoColons(p, |file|, |head|);
    assert p[..|head|] == head && p[..|file|] == file;
    assert p[|head| + 2..] == msg;
  }

  /** In "file:NN" the only colon is the one after the file name. */
  lemma HeaderColons(file: string, lineNo: nat)
    requires ':' !in file
    ensures var head := file + ":" + Dec(lineNo);
      && head[|file|] == ':'
      && forall k :: 0 <= k < |head| && k != |file| ==> head[k] != ':'
  {
    var num := Dec(lineNo);
    var head := file + ":" + num;
    DecSpec(lineNo);
    forall k | 0 <= k < |head| && k != |file| ensures head[k] != ':' {
      if k < |file| {
        assert head[k] == file[k];
      } else {
        assert head[k] == num[k - |file| - 1] && IsDigit(num[k - |file| - 1]);
      }
    }
  }

  /** A line whose only colon is its last byte, such as "x:", puts the body
      start past the end, so Write would slice out of range. */
  lemma TrailingColonOverruns(showNum: bool, p: string)
    requires |p| >= 2 && p[|p| - 1] == ':'
    requires forall k :: 0 <= k < |p| - 1 ==> p[k] != ':'
    ensures BodyStart(true, showNum, p) == |p| + 1 && !Splittable(true, showNum, p)
  {
    assert IndexOf(p, ':') == |p| - 1;
    assert p[|p|..] == [];
  }
}
