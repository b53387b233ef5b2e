/**
 * The lyric poller. Each tick reads a fixed window of bytes at the resolved
 * address, cuts it at the first pair of zero bytes (at any byte offset),
 * pads an odd length with one zero byte, decodes strictly as UTF-16LE,
 * strips whitespace at both ends, and emits the text only when it differs
 * from the last text seen. Neither a failed read nor a decode error is
 * handled inside the loop: either one ends the run.
 */
module Lyric {
  import opened Wrappers
  import opened Utf16

  /** The number of bytes read at the lyric address on every tick. */
  const ReadSize: nat := 200

  /** A zero byte pair begins at offset i. */
  predicate TerminatorAt(raw: seq<Byte>, i: int) {
    0 <= i && i + 1 < |raw| && raw[i] == 0 && raw[i + 1] == 0
  }

  /** The offset of the first zero byte pair, or the length of the buffer when there is none. */
  function TerminatorIndex(raw: seq<Byte>): (n: nat)
    ensures n <= |raw|
    ensures forall i :: 0 <= i < n ==> !TerminatorAt(raw, i)
    ensures n < |raw| ==> TerminatorAt(raw, n)
    decreases |raw|
  {
    if |raw| < 2 then |raw|
    else if raw[0] == 0 && raw[1] == 0 then 0
    else
      var m := TerminatorIndex(raw[1..]);
      assert forall i :: 1 <= i < m + 1 ==> TerminatorAt(raw, i) == TerminatorAt(raw[1..], i - 1);
      m + 1
  }

  /** raw.split(b'\x00\x00')[0]: the bytes before the first zero pair. */
  function Candidate(raw: seq<Byte>): (c: seq<Byte>)
    ensures |c| <= |raw| && c == raw[..|c|]
    ensures forall i :: 0 <= i < |c| ==> !TerminatorAt(raw, i)
    ensures |c| < |raw| ==> TerminatorAt(raw, |c|)
  {
    raw[..TerminatorIndex(raw)]
  }

  /** The parity fix: one zero byte is appended to an odd-length candidate. */
  function PadEven(c: seq<Byte>): (p: seq<Byte>)
    ensures |p| % 2 == 0 && |p| == |c| + |c| % 2
    ensures p[..|c|] == c && forall i :: |c| <= i < |p| ==> p[i] == 0
  {
    if |c| % 2 != 0 then c + [0] else c
  }

  /**
   * The characters str.strip() removes when called without arguments: those
   * str.isspace() accepts (tab to carriage return, the four information
   * separators, space, NEL, no-break space and the Unicode space separators).
   */
  predicate IsSpace(c: char) {
    c in {'\t', '\n', '\U{0B}', '\U{0C}', '\r', '\U{1C}', '\U{1D}', '\U{1E}', '\U{1F}', ' ', '\U{85}', '\U{A0}', '\U{1680}',
          '\U{2000}', '\U{2001}', '\U{2002}', '\U{2003}', '\U{2004}', '\U{2005}', '\U{2006}', '\U{2007}', '\U{2008}', '\U{2009}', '\U{200A}',
          '\U{2028}', '\U{2029}', '\U{202F}', '\U{205F}', '\U{3000}'}
  }

  /** How many characters at the start of `s` are whitespace. */
  function LeadingSpaces(s: string): (n: nat)
    ensures n <= |s|
    ensures forall i :: 0 <= i < n ==> IsSpace(s[i])
    ensures n < |s| ==> !IsSpace(s[n])
    decreases |s|
  {
    if s == [] || !IsSpace(s[0]) then 0
    else 1 + LeadingSpaces(s[1..])
  }

  /** How many characters at the end of `s` are whitespace. */
  function TrailingSpaces(s: string): (n: nat)
    ensures n <= |s|
    ensures forall i :: |s| - n <= i < |s| ==> IsSpace(s[i])
    ensures n < |s| ==> !IsSpace(s[|s| - 1 - n])
    decreases |s|
  {
    if s == [] || !IsSpace(s[|s| - 1]) then 0
    else 1 + TrailingSpaces(s[..|s| - 1])
  }

  /** str.strip(): whitespace removed from both ends, the interior left alone. */
  function Strip(s: string): (r: string)
    ensures |r| <= |s|
    ensures r == [] || (!IsSpace(r[0]) && !IsSpace(r[|r| - 1]))
    ensures var n := LeadingSpaces(s);
            && n + |r| <= |s| && r == s[n..n + |r|]
            && forall k :: n + |r| <= k < |s| ==> IsSpace(s[k])
  {
    var t := s[LeadingSpaces(s)..];
    t[..|t| - TrailingSpaces(t)]
  }

  /** One tick's decoded lyric, before change detection. */
  function ExtractLyric(raw: seq<Byte>): (r: Result<string, DecodeError>)
  {
    match DecodeUtf16Le(PadEven(Candidate(raw)))
    case Failure(e) => Failure(e)
    case Success(s) => Success(Strip(s))
  }

  /** The state after one tick and what, if anything, it printed. */
  datatype Detection = Detection(last: string, output: Option<string>)

  /** Change detection: emit the lyric iff it differs from the last one, which then becomes the lyric. */
  function Detect(last: string, lyric: string): (d: Detection)
    ensures d.last == lyric
    ensures d.output.Some? <==> lyric != last
    ensures d.output.Some? ==> d.output.value == lyric
  {
    if lyric != last then Detection(lyric, Some(lyric)) else Detection(last, None)
  }

  /** What pm.read_bytes yields on one tick: the bytes, or an exception. */
  datatype TickRead = Bytes(raw: seq<Byte>) | ReadFault

  /** The two errors a tick can raise; the loop catches neither. */
  datatype PollError = ReadBytesFailed | DecodeFailed(error: DecodeError)

  /** One tick up to change detection: the stripped lyric, or the error that ends the run. */
  function TickLyric(t: TickRead): (r: Result<string, PollError>)
  {
    match t
    case ReadFault => Failure(ReadBytesFailed)
    case Bytes(raw) =>
      match ExtractLyric(raw)
      case Failure(e) => Failure(DecodeFailed(e))
      case Success(lyric) => Success(lyric)
  }

  /** The lyrics printed, the final last lyric, and the error that ended the run, if one did. */
  datatype PollRun = PollRun(emitted: seq<string>, last: string, fatal: Option<PollError>)

  function WithEarlier(earlier: seq<string>, run: PollRun): PollRun {
    PollRun(earlier + run.emitted, run.last, run.fatal)
  }

  lemma WithEarlierTwice(a: seq<string>, b: seq<string>, run: PollRun)
    ensures WithEarlier(a, WithEarlier(b, run)) == WithEarlier(a + b, run)
  {
    assert a + (b + run.emitted) == (a + b) + run.emitted;
  }

  /**
   * Change detection over the outcomes of successive ticks, starting from
   * `last`: each lyric goes through Detect, and the first error ends the run.
   */
  function DetectAll(last: string, lyrics: seq<Result<string, PollError>>): (run: PollRun)
    ensures |run.emitted| <= |lyrics|
    decreases |lyrics|
  {
    if lyrics == [] then PollRun([], last, None)
    else
      match lyrics[0]
      case Failure(e) => PollRun([], last, Some(e))
      case Success(lyric) =>
        var d := Detect(last, lyric);
        WithEarlier(if d.output.Some? then [lyric] else [], DetectAll(d.last, lyrics[1..]))
  }

  /** One tick of DetectAll: an error ends the run, a lyric goes through Detect. */
  lemma DetectAllCons(last: string, lyrics: seq<Result<string, PollError>>)
    requires lyrics != []
    ensures DetectAll(last, lyrics) ==
              if lyrics[0].Failure? then PollRun([], last, Some(lyrics[0].error))
              else WithEarlier(if lyrics[0].value != last then [lyrics[0].value] else [], DetectAll(lyrics[0].value, lyrics[1..]))
  {
  }

  /** The outcome of every tick, in order. */
  function TickLyrics(ticks: seq<TickRead>): (lyrics: seq<Result<string, PollError>>)
    ensures |lyrics| == |ticks|
    decreases |ticks|
  {
    if ticks == [] then [] else [TickLyric(ticks[0])] + TickLyrics(ticks[1..])
  }

  lemma {:induction false} TickLyricsIndex(ticks: seq<TickRead>, i: int)
    requires 0 <= i < |ticks|
    ensures TickLyrics(ticks)[i] == TickLyric(ticks[i])
    decreases i
  {
    if i > 0 {
      TickLyricsIndex(ticks[1..], i - 1);
    }
  }

  lemma {:induction false} TickLyricsAppend(ticks: seq<TickRead>, more: seq<TickRead>)
    ensures TickLyrics(ticks + more) == TickLyrics(ticks) + TickLyrics(more)
    decreases |ticks|
  {
    if ticks == [] {
      assert ticks + more == more;
    } else {
      assert (ticks + more)[0] == ticks[0] && (ticks + more)[1..] == ticks[1..] + more;
      TickLyricsAppend(ticks[1..], more);
    }
  }

  /** The polling loop over a finite run of reads, starting from `last`. */
  function PollFrom(last: string, ticks: seq<TickRead>): PollRun {
    DetectAll(last, TickLyrics(ticks))
  }

  /** The body of one tick, as main writes it: split, pad in place, decode, strip. */
  method DecodeWindow(raw: seq<Byte>) returns (r: Result<string, DecodeError>)
    ensures r == ExtractLyric(raw)
  {
    var lyric := Candidate(raw);
    if |lyric| % 2 != 0 {
      lyric := lyric + [0];
    }
    assert lyric == PadEven(Candidate(raw));
    var decoded := DecodeUtf16Le(lyric);
    if decoded.Failure? {
      return Failure(decoded.error);
    }
    return Success(Strip(decoded.value));
  }

  /** The loop in main: last_lyric starts empty and is updated in place. */
  method PollLyrics(ticks: seq<TickRead>) returns (run: PollRun)
    ensures run == PollFrom("", ticks)
  {
    ghost var lyrics := TickLyrics(ticks);
    var lastLyric := "";
    var emitted: seq<string> := [];
    var i := 0;
    while i < |ticks|
      invariant 0 <= i <= |ticks|
      invariant DetectAll("", lyrics) == WithEarlier(emitted, DetectAll(lastLyric, lyrics[i..]))
    {
      TickLyricsIndex(ticks, i);
      assert lyrics[i..][0] == lyrics[i];
      assert lyrics[i..][1..] == lyrics[i + 1..];
      DetectAllCons(lastLyric, lyrics[i..]);
      // the read and the decode may raise; neither is caught inside the loop
      var outcome := TickLyric(ticks[i]);
      if outcome.Failure? {
        assert emitted + [] == emitted;
        return PollRun(emitted, lastLyric, Some(outcome.error));
      }
      var text := outcome.value;
      ghost var rest := DetectAll(text, lyrics[i + 1..]);
      if text != lastLyric {
        WithEarlierTwice(emitted, [text], rest);
        emitted := emitted + [text];
        lastLyric := text;
      } else {
        WithEarlierTwice(emitted, [], rest);
        assert emitted + [] == emitted;
      }
      i := i + 1;
    }
    assert lyrics[i..] == [];
    return PollRun(emitted, lastLyric, None);
  }

  /**
   * Strip is pinned down by what it removes: for any split of `s` into
   * whitespace, a middle that is empty or starts and ends with a non-space,
   * and whitespace, Strip returns that middle.
   */
  lemma StripUnique(s: string, i: nat, j: nat)
    requires i <= j <= |s|
    requires forall k :: 0 <= k < i ==> IsSpace(s[k])
    requires forall k :: j <= k < |s| ==> IsSpace(s[k])
    requires i < j ==> !IsSpace(s[i]) && !IsSpace(s[j - 1])
    ensures Strip(s) == s[i..j]
  {
    var n := LeadingSpaces(s);
    if i < j {
      assert n == i;
      var t := s[i..];
      assert t[j - i - 1] == s[j - 1];
      assert forall k :: j - i <= k < |t| ==> t[k] == s[k + i];
      assert |t| - TrailingSpaces(t) == j - i;
      assert t[..j - i] == s[i..j];
    } else {
      assert n == |s|;
    }
  }

  /** No interior normalisation: text that neither starts nor ends with whitespace is left exactly as it is. */
  lemma StripKeepsInterior(s: string)
    requires s == [] || (!IsSpace(s[0]) && !IsSpace(s[|s| - 1]))
    ensures Strip(s) == s
  {
    StripUnique(s, 0, |s|);
  }

  lemma StripIdempotent(s: string)
    ensures Strip(Strip(s)) == Strip(s)
  {
    StripKeepsInterior(Strip(s));
  }

  /**
   * On a full read window the padded candidate is even and no longer than the
   * window, so a decoded lyric has at most ReadSize / 2 characters.
   */
  lemma LyricWithinBuffer(raw: seq<Byte>)
    requires |raw| == ReadSize
    ensures |PadEven(Candidate(raw))| % 2 == 0 && |PadEven(Candidate(raw))| <= ReadSize
    ensures ExtractLyric(raw).Success? ==> |ExtractLyric(raw).value| <= ReadSize / 2
    ensures var decoded := DecodeUtf16Le(PadEven(Candidate(raw)));
            decoded.Success? ==> |EncodeUnits(decoded.value)| <= ReadSize / 2
  {
    var p := PadEven(Candidate(raw));
    if DecodeUtf16Le(p).Success? {
      DecodeSucceeds(p);
    }
  }

  /** The UTF-16LE encoding of "A" followed by U+4E00 holds a zero pair at the odd offset 1. */
  lemma UnalignedZeroPair()
    ensures EncodeUtf16Le("A\U{4E00}") == [0x41, 0x00, 0x00, 0x4E]
  {
  }

  /**
   * The zero pair is searched at every byte offset, not only at even ones:
   * that text followed by a terminator is cut after its first byte, padded
   * back to "A", and the second character is lost.
   */
  lemma UnalignedTerminatorCuts()
    ensures ExtractLyric(EncodeUtf16Le("A\U{4E00}") + [0x00, 0x00]) == Success("A")
  {
    var raw: seq<Byte> := [0x41, 0x00, 0x00, 0x4E, 0x00, 0x00];
    UnalignedZeroPair();
    assert EncodeUtf16Le("A\U{4E00}") + [0x00, 0x00] == raw;
    assert TerminatorAt(raw, 1);
    assert Candidate(raw) == [0x41];
    assert PadEven([0x41]) == [0x41, 0x00];
    var u: seq<CodeUnit> := [0x41];
    assert BytesToUnits([0x41, 0x00]) == u;
    assert u[1..] == [] && 0x41 as char == 'A';
    assert DecodeUnits(u[1..]) == Success([]);
    assert !IsLow(u[0]) && !IsHigh(u[0]);
    assert DecodeUnits(u) == Success([u[0] as char] + []);
    assert [u[0] as char] + [] == "A";
    StripKeepsInterior("A");
    assert ExtractLyric(raw) == Success("A");
  }

  /** There is no emptiness check: an empty lyric that differs from the last one is printed. */
  lemma EmptyLyricIsEmitted(last: string, raw: seq<Byte>)
    requires |raw| >= 2 && raw[0] == 0 && raw[1] == 0 && last != ""
    ensures TickLyric(Bytes(raw)) == Success("")
    ensures PollFrom(last, [Bytes(raw)]) == PollRun([""], "", None)
  {
    assert TerminatorAt(raw, 0);
    var lyrics := TickLyrics([Bytes(raw)]);
    assert lyrics == [Success("")];
    assert lyrics[1..] == [];
    assert Detect(last, "") == Detection("", Some(""));
    assert DetectAll(last, lyrics) == WithEarlier([""], DetectAll("", []));
    assert [""] + [] == [""];
  }

  /**
   * A window that starts with a lone low surrogate does not decode, and the
   * error ends the run there: nothing is printed and later reads change nothing.
   */
  lemma LoneSurrogateIsFatal(last: string, raw: seq<Byte>, more: seq<TickRead>)
    requires |raw| >= 2 && IsLow(raw[0] as int + 0x100 * raw[1] as int)
    ensures PollFrom(last, [Bytes(raw)] + more) == PollRun([], last, Some(DecodeFailed(IllegalEncoding)))
  {
    var c := Candidate(raw);
    assert !TerminatorAt(raw, 0);
    assert |c| >= 2;
    var p := PadEven(c);
    assert p[0] == raw[0] && p[1] == raw[1];
    assert BytesToUnits(p)[0] == raw[0] as int + 0x100 * raw[1] as int;
    assert TickLyrics([Bytes(raw)] + more)[0] == TickLyric(Bytes(raw));
  }

  /**
   * Change detection over a whole run: no lyric is printed twice in a row,
   * the first one printed differs from the starting lyric, and the final last
   * lyric is the last one printed (or the starting one if none was).
   */
  lemma {:induction false} NoRepeats(last: string, lyrics: seq<Result<string, PollError>>)
    ensures var run := DetectAll(last, lyrics);
            && (run.emitted != [] ==> run.emitted[0] != last)
            && (forall i :: 0 <= i < |run.emitted| - 1 ==> run.emitted[i] != run.emitted[i + 1])
            && run.last == if run.emitted == [] then last else run.emitted[|run.emitted| - 1]
    decreases |lyrics|
  {
    if lyrics != [] && lyrics[0].Success? {
      var lyric := lyrics[0].value;
      var rest := DetectAll(lyric, lyrics[1..]);
      NoRepeats(lyric, lyrics[1..]);
      var run := DetectAll(last, lyrics);
      if lyric != last {
        assert run.emitted == [lyric] + rest.emitted;
        forall i | 0 <= i < |run.emitted| - 1 ensures run.emitted[i] != run.emitted[i + 1] {
          if i > 0 {
            assert run.emitted[i] == rest.emitted[i - 1];
          }
        }
      } else {
        assert run.emitted == rest.emitted;
      }
    }
  }

  /** last_lyric starts as "", so an empty lyric is never the first thing printed. */
  lemma LeadingEmptyNeverEmitted(ticks: seq<TickRead>)
    ensures PollFrom("", ticks).emitted != [] ==> PollFrom("", ticks).emitted[0] != ""
  {
    NoRepeats("", TickLyrics(ticks));
  }

  /**
   * The same tick outcome again and again prints at most once, and not at all
   * when it is the lyric already shown.
   */
  lemma {:induction false} RepeatedLyricEmitsAtMostOnce(last: string, outcome: Result<string, PollError>, n: nat)
    ensures |DetectAll(last, seq(n, _ => outcome)).emitted| <= 1
    ensures outcome == Success(last) ==> DetectAll(last, seq(n, _ => outcome)).emitted == []
    decreases n
  {
    var lyrics := seq(n, _ => outcome);
    if n > 0 && outcome.Success? {
      assert lyrics[0] == outcome;
      assert lyrics[1..] == seq(n - 1, _ => outcome);
      RepeatedLyricEmitsAtMostOnce(outcome.value, outcome, n - 1);
    }
  }

  /** Reading the same window on every tick prints at most once. */
  lemma RepeatedBufferEmitsAtMostOnce(last: string, raw: seq<Byte>, n: nat)
    ensures |PollFrom(last, seq(n, _ => Bytes(raw))).emitted| <= 1
    ensures TickLyric(Bytes(raw)) == Success(last) ==> PollFrom(last, seq(n, _ => Bytes(raw))).emitted == []
  {
    var outcome := TickLyric(Bytes(raw));
    var ticks := seq(n, _ => Bytes(raw));
    forall i | 0 <= i < n ensures TickLyrics(ticks)[i] == outcome {
      TickLyricsIndex(ticks, i);
    }
    assert TickLyrics(ticks) == seq(n, _ => outcome);
    RepeatedLyricEmitsAtMostOnce(last, outcome, n);
  }

  /** Once an error has ended the run, outcomes that would have come after it change nothing. */
  lemma {:induction false} FatalEndsRun(last: string, lyrics: seq<Result<string, PollError>>, more: seq<Result<string, PollError>>)
    requires DetectAll(last, lyrics).fatal.Some?
    ensures DetectAll(last, lyrics + more) == DetectAll(last, lyrics)
    decreases |lyrics|
  {
    assert (lyrics + more)[0] == lyrics[0];
    if lyrics[0].Success? {
      assert (lyrics + more)[1..] == lyrics[1..] + more;
      FatalEndsRun(lyrics[0].value, lyrics[1..], more);
    }
  }

  /** Reads after the one that ended the run are never looked at. */
  lemma FatalPollEndsRun(last: string, ticks: seq<TickRead>, more: seq<TickRead>)
    requires PollFrom(last, ticks).fatal.Some?
    ensures PollFrom(last, ticks + more) == PollFrom(last, ticks)
  {
    TickLyricsAppend(ticks, more);
    FatalEndsRun(last, TickLyrics(ticks), TickLyrics(more));
  }

  /** A run ends without error exactly when every tick produced a lyric. */
  lemma {:induction false} CompletesIff(last: string, lyrics: seq<Result<string, PollError>>)
    ensures DetectAll(last, lyrics).fatal.None? <==> forall i :: 0 <= i < |lyrics| ==> lyrics[i].Success?
    decreases |lyrics|
  {
    if lyrics != [] && lyrics[0].Success? {
      CompletesIff(lyrics[0].value, lyrics[1..]);
      assert forall i :: 1 <= i < |lyrics| ==> lyrics[i] == lyrics[1..][i - 1];
    }
  }

  /** A polling run ends without error exactly when every read succeeded and every window decoded. */
  lemma PollCompletesIff(last: string, ticks: seq<TickRead>)
    ensures PollFrom(last, ticks).fatal.None? <==>
              forall i :: 0 <= i < |ticks| ==> ticks[i].Bytes? && ExtractLyric(ticks[i].raw).Success?
  {
    var lyrics := TickLyrics(ticks);
    CompletesIff(last, lyrics);
    forall i | 0 <= i < |ticks|
      ensures lyrics[i].Success? <==> ticks[i].Bytes? && ExtractLyric(ticks[i].raw).Success?
    {
      TickLyricsIndex(ticks, i);
    }
  }
}
