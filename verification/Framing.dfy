/** Where a receive loop stops on a stream of bytes, whatever the sizes of its reads. */
module Framing {
  import opened Bytes
  import opened Telegram

  datatype RecvResult = RecvOk | RecvError | RecvInvalid | RecvTimeout | RecvReset

  /** With the parser satisfied at `k` bytes or asking for more, the byte count at which it stops asking. */
  function Cut(s: seq<byte>, k: nat): (end: nat)
    requires k <= |s|
    ensures k <= end <= |s|
    ensures Code(s[..end]) > 0 ==> end == |s|
    decreases |s| - k
  {
    var need := Code(s[..k]);
    if need <= 0 then k
    else if k + need <= |s| then Cut(s, k + need)
    else |s|
  }

  /** Stop position of a loop that holds `len` bytes and wants `want` more. */
  function StopAt(s: seq<byte>, len: nat, want: nat): (end: nat)
    requires len <= |s| && want > 0
    ensures len <= end <= |s|
    ensures Code(s[..end]) > 0 ==> end == |s|
  {
    if len + want <= |s| then Cut(s, len + want)
    else |s|
  }

  /** Stop position of a loop that starts by asking for one byte. */
  function End(s: seq<byte>): (end: nat)
    ensures end <= |s|
    ensures s != [] ==> end > 0
  {
    StopAt(s, 0, 1)
  }

  /** A read of any part of what was asked for leaves the stop position where it was. */
  lemma PartialReadKeepsStop(s: seq<byte>, len: nat, want: nat, got: nat)
    requires 0 < got <= want && len + got <= |s|
    requires len == 0 ==> want == 1
    requires len > 0 ==> want == Code(s[..len])
    ensures Code(s[..len + got]) > 0 ==> StopAt(s, len + got, Code(s[..len + got])) == StopAt(s, len, want)
    ensures Code(s[..len + got]) <= 0 ==> StopAt(s, len, want) == len + got
    ensures Code(s[..len + got]) > 0 ==> len + got + Code(s[..len + got]) <= 261
  {
    NeedIsBounded(s[..len + got]);
    if got < want {
      assert s[..len + got] == s[..len] + s[len..len + got];
      NeedIsExact(s[..len], s[len..len + got]);
    }
  }

  /** Parsing a prefix that asks for more leaves nothing behind that a later parse would see. */
  lemma ReparseFromPrefix(f: Fields, a: seq<byte>, b: seq<byte>)
    requires a == [] || Code(a) > 0
    requires a <= b
    ensures Parse(Parse(f, a).fields, b) == Parse(f, b)
  {
    CodeIgnoresOldFields(f, a);
    var g := Parse(f, a).fields;
    if |a| >= 3 && a[0] == LONG_START {
      assert b[0] == a[0] && b[1] == a[1] && b[2] == a[2];
      if |b| >= 9 {
        assert LongFields(g, b) == LongFields(f, b);
      }
    }
  }

  /** On a stream that starts with a telegram the loop stops exactly at the telegram's end. */
  lemma EndOfTelegram(s: seq<byte>, t: seq<byte>)
    requires IsTelegram(t) && t <= s
    ensures End(s) == |t| && Code(s[..End(s)]) == 0
  {
    AcceptsExactly(t);
    CutOfTelegram(s, t, 1);
    assert s[..|t|] == t;
  }

  lemma {:induction false} CutOfTelegram(s: seq<byte>, t: seq<byte>, k: nat)
    requires IsTelegram(t) && t <= s && 0 < k <= |t|
    ensures Cut(s, k) == |t|
    decreases |t| - k
  {
    assert s[..k] == t[..k];
    if k < |t| {
      NeverAsksPastTheEnd(t, k);
      CutOfTelegram(s, t, k + Code(t[..k]));
    } else {
      assert t[..k] == t;
      AcceptsExactly(t);
    }
  }

  /** What a receiver returns when every read delivers something as long as bytes are pending. */
  function Outcome(s: seq<byte>): RecvResult {
    if s == [] then RecvTimeout
    else if Code(s[..End(s)]) == 0 then RecvOk
    else RecvInvalid
  }

  /** How a serial receive may end: `taken` bytes consumed from the stream `s` after `empty` reads
      that brought nothing, starting from frame fields `f` and leaving `g`. */
  predicate Received(s: seq<byte>, f: Fields, g: Fields, result: RecvResult, taken: nat, empty: nat) {
    && taken <= End(s) && empty <= 3
    && g == Parse(f, s[..taken]).fields
    && match result
       case RecvTimeout => taken == 0 && empty == 1
       case RecvOk => 0 < taken == End(s) && Code(s[..taken]) == 0 && empty < 3
       case RecvInvalid =>
         && 0 < taken
         && ((Code(s[..taken]) < 0 && taken == End(s) && empty < 3) || (Code(s[..taken]) > 0 && empty == 3))
       case RecvError => empty < 3
       case RecvReset => false
  }

  /** How a receive over TCP may end; the first empty read ends it. */
  predicate ReceivedOverTcp(s: seq<byte>, f: Fields, g: Fields, result: RecvResult, taken: nat, empty: nat) {
    && taken <= End(s)
    && g == Parse(f, s[..taken]).fields
    && match result
       case RecvOk => 0 < taken == End(s) && Code(s[..taken]) == 0 && empty == 0
       case RecvInvalid => 0 < taken == End(s) && Code(s[..taken]) < 0 && empty == 0
       case RecvError => empty == 0
       case RecvTimeout | RecvReset => empty == 1
  }

  /** On the same stream, without an empty and without a failing read, the two loops agree on the
      result, on the bytes consumed and on the frame, however differently the bytes are split. */
  lemma ReceiversAgree(s: seq<byte>, f: Fields, g: Fields, result: RecvResult, taken: nat,
                       g': Fields, result': RecvResult, taken': nat)
    requires Received(s, f, g, result, taken, 0) && result != RecvError
    requires ReceivedOverTcp(s, f, g', result', taken', 0) && result' != RecvError
    ensures result == result' && taken == taken' && g == g'
  {
  }

  /** A stream that starts with a telegram: unless a read failed, the first one was empty or three
      of them were, the receiver takes exactly that telegram and fills the frame from it. */
  lemma ChunkingIndependence(t: seq<byte>, s: seq<byte>, f: Fields, g: Fields, result: RecvResult,
                             taken: nat, empty: nat)
    requires IsTelegram(t) && t <= s
    requires Received(s, f, g, result, taken, empty)
    requires result != RecvError && result != RecvTimeout && empty < 3
    ensures result == RecvOk && taken == |t| && g == Parse(f, t).fields
  {
    EndOfTelegram(s, t);
    if taken == |t| {
      assert s[..taken] == t;
    }
  }

  /** The result is good exactly when the stream starts with a telegram. */
  lemma OutcomeOkExactly(s: seq<byte>)
    ensures Outcome(s) == RecvOk <==> exists t :: IsTelegram(t) && t <= s
    ensures Outcome(s) == RecvOk ==> IsTelegram(s[..End(s)])
    ensures s != [] && s[0] == ACK_START ==> End(s) == 1 && Outcome(s) == RecvOk
  {
    if s != [] && s[0] == ACK_START {
      EndOfTelegram(s, [ACK_START]);
    }
    if Outcome(s) == RecvOk {
      AcceptsExactly(s[..End(s)]);
      assert IsTelegram(s[..End(s)]) && s[..End(s)] <= s;
    }
    if t :| IsTelegram(t) && t <= s {
      EndOfTelegram(s, t);
    }
  }
}
