/** Reading a device's answer off the shared bus. Every poll returns one
    token tagged with the address it came from; tokens are appended to the
    buffer of that address (`result_pool`), whichever worker polled, and a
    worker stops when the buffer of the address it just heard from holds a
    complete answer, when a `#` token signals corruption, or when its time
    budget has run out. */
module Demux {
  import opened Wrappers
  import opened PyText
  import opened PyInt
  import opened Framing

  /** The reply buffers, keyed by lower-case hexadecimal address. */
  type Buffers = map<string, string>

  /** One pass of the read loop: the decoded reply of `usbi2c_read` (`None`
      when the read raised), and whether the attempt's time budget
      (`Settings.AVR_TIMEOUT`) had run out when the loop checked the clock. */
  datatype Poll = Poll(reply: Option<seq<string>>, expired: bool)

  datatype BusError =
    | NoReply         // IndexError: the reply has no address or no token
    | BadAddress      // ValueError: the reply's address is not hexadecimal
    | UnknownAddress  // KeyError: no buffer for the reply's address
    | Corrupted       // the device sent `#`
    | TimedOut        // the time budget ran out
  {
    /** The errors after which the loop writes a flush command. */
    predicate Flushes()
    {
      Corrupted? || TimedOut?
    }
  }

  /** How far the loop has got. `Blocked`: a read raised while holding the
      bus semaphore (`serlock`, released only when a read returns), and
      the loop then needed the bus again, so the worker waits forever;
      only the loop as written ends this way. */
  datatype ReadStatus = Reading | Complete(key: string) | Aborted(error: BusError) | Blocked

  /** The loop's variables: the buffers, the last split of a buffer on `,`
      (`result`), and whether and how the loop has ended. */
  datatype ReadState = ReadState(buffers: Buffers, fields: seq<string>, status: ReadStatus)

  /** What a token does: data is appended, an error mark aborts, anything
      else is ignored. */
  datatype TokenClass = Data | ErrorMark | Idle

  function Classify(token: string): (c: TokenClass)
    ensures c == Data <==> IsAlnum(token) || FieldSep in token
    ensures c == ErrorMark <==> !IsAlnum(token) && FieldSep !in token && '#' in token
  {
    if IsAlnum(token) || FieldSep in token then Data
    else if '#' in token then ErrorMark
    else Idle
  }

  /** The completion test: the current token holds a newline and the
      buffer splits into 4 fields with the checksum setting "y", or into 3
      with "n". Any other setting never completes. */
  predicate Finished(fieldCount: nat, token: string, crcFlag: string)
  {
    && '\n' in token
    && ((fieldCount == 4 && crcFlag == "y") || (fieldCount == 3 && crcFlag == "n"))
  }

  /** The buffer effect of one reply on its own: a data token, stripped,
      is appended to the buffer of the reply's address when that buffer
      exists; no other reply changes any buffer. */
  function AbsorbOne(b: Buffers, reply: seq<string>): Buffers
  {
    if |reply| >= 2 && ReplyKey(reply[0]).Some? && ReplyKey(reply[0]).value in b
       && Classify(reply[1]) == Data
    then b[ReplyKey(reply[0]).value := b[ReplyKey(reply[0]).value] + Strip(reply[1])]
    else b
  }

  /** The buffer effect of a reply touches at most the buffer of the
      reply's address, appends the stripped token to it exactly when the
      token is data, and never adds or removes a buffer. */
  lemma AbsorbOneEffect(b: Buffers, reply: seq<string>)
    ensures AbsorbOne(b, reply).Keys == b.Keys
    ensures forall k :: k in b && (|reply| < 2 || ReplyKey(reply[0]) != Some(k)) ==> AbsorbOne(b, reply)[k] == b[k]
    ensures |reply| >= 2 && ReplyKey(reply[0]).Some? && ReplyKey(reply[0]).value in b ==>
            AbsorbOne(b, reply)[ReplyKey(reply[0]).value] ==
              b[ReplyKey(reply[0]).value] + (if Classify(reply[1]) == Data then Strip(reply[1]) else "")
  {
    if |reply| >= 2 && ReplyKey(reply[0]).Some? && ReplyKey(reply[0]).value in b && Classify(reply[1]) != Data {
      assert b[ReplyKey(reply[0]).value] + "" == b[ReplyKey(reply[0]).value];
    }
  }

  /** One reply processed by the read loop. */
  function Process(b: Buffers, fields: seq<string>, reply: seq<string>, expired: bool, crcFlag: string): (r: ReadState)
    ensures r.buffers == AbsorbOne(b, reply)
    ensures r.status == Aborted(Corrupted) <==>
            |reply| >= 2 && ReplyKey(reply[0]).Some? && Classify(reply[1]) == ErrorMark
    ensures r.status.Complete? <==>
            && |reply| >= 2 && ReplyKey(reply[0]).Some? && ReplyKey(reply[0]).value in b
            && Classify(reply[1]) != ErrorMark
            && Finished(|Split(r.buffers[ReplyKey(reply[0]).value], FieldSep)|, reply[1], crcFlag)
    ensures r.status.Complete? ==>
            r.status.key == ReplyKey(reply[0]).value && r.fields == Split(r.buffers[r.status.key], FieldSep)
    ensures r.status == Aborted(TimedOut) ==> expired
    ensures expired ==> !r.status.Reading?
    ensures !r.status.Blocked?
  {
    if |reply| == 0 then ReadState(b, fields, Aborted(NoReply))
    else match ReplyKey(reply[0])
      case None => ReadState(b, fields, Aborted(BadAddress))
      case Some(key) =>
        if |reply| < 2 then ReadState(b, fields, Aborted(NoReply))
        else
          var token := reply[1];
          var c := Classify(token);
          if c == ErrorMark then ReadState(b, fields, Aborted(Corrupted))
          else if key !in b then ReadState(b, fields, Aborted(UnknownAddress))
          else
            var b' := if c == Data then b[key := b[key] + Strip(token)] else b;
            var f := Split(b'[key], FieldSep);
            if Finished(|f|, token, crcFlag) then ReadState(b', f, Complete(key))
            else if expired then ReadState(b', f, Aborted(TimedOut))
            else ReadState(b', f, Reading)
  }

  /** One pass of the loop in which a failed read is skipped: only the
      clock is checked. */
  function PollStep(st: ReadState, p: Poll, crcFlag: string): (r: ReadState)
    requires st.status.Reading?
    ensures p.expired ==> !r.status.Reading?
    ensures !r.status.Blocked?
  {
    match p.reply
    case Some(reply) => Process(st.buffers, st.fields, reply, p.expired, crcFlag)
    case None => if p.expired then st.(status := Aborted(TimedOut)) else st
  }

  /** The read loop over a stream of polls, stopping at the first pass
      that ends it; a stream that runs out leaves it `Reading`. */
  function ReadLoop(polls: seq<Poll>, st: ReadState, crcFlag: string): (r: ReadState)
    ensures r.buffers.Keys == st.buffers.Keys
    ensures r.status.Reading? ==> forall i :: 0 <= i < |polls| ==> !polls[i].expired
    ensures r.status.Blocked? ==> st.status.Blocked?
    decreases |polls|
  {
    if !st.status.Reading? || |polls| == 0 then st
    else ReadLoop(polls[1..], PollStep(st, polls[0], crcFlag), crcFlag)
  }

  /** Whether some read of the stream raised. */
  predicate ReadRaised(polls: seq<Poll>)
  {
    exists i :: 0 <= i < |polls| && polls[i].reply.None?
  }

  /** Whether a loop that has just processed a reply goes on to use the
      bus: to poll again, or to write a flush after corruption or a
      timeout. */
  predicate NeedsBus(s: ReadStatus)
  {
    s.Reading? || (s.Aborted? && s.error.Flushes())
  }

  /** The loop as written, and whether a read raised on the way and left
      the bus semaphore taken. */
  datatype WrittenRead = WrittenRead(state: ReadState, lockHeld: bool)

  /** The read loop as the source writes it. When a read raises,
      `i2c_rdata` still holds the previous reply (initially the empty
      list), which is processed again; and since the raising read never
      released the bus semaphore, the loop blocks as soon as it needs the
      bus again: after a raising read it never goes on using the bus. */
  function ReadLoopAsWritten(polls: seq<Poll>, st: ReadState, last: seq<string>, crcFlag: string): (r: WrittenRead)
    ensures r.lockHeld ==> ReadRaised(polls) && !NeedsBus(r.state.status)
    ensures r.state.status.Blocked? ==> r.lockHeld || st.status.Blocked?
    ensures !ReadRaised(polls) ==> !r.lockHeld
    decreases |polls|
  {
    if !st.status.Reading? || |polls| == 0 then WrittenRead(st, false)
    else match polls[0].reply
      case Some(reply) =>
        var r := ReadLoopAsWritten(polls[1..], Process(st.buffers, st.fields, reply, polls[0].expired, crcFlag), reply, crcFlag);
        assert r.lockHeld ==> ReadRaised(polls) by {
          if r.lockHeld {
            var i :| 0 <= i < |polls[1..]| && polls[1..][i].reply.None?;
            assert polls[i + 1].reply.None?;
          }
        }
        assert !ReadRaised(polls) ==> !ReadRaised(polls[1..]) by {
          if ReadRaised(polls[1..]) {
            var i :| 0 <= i < |polls[1..]| && polls[1..][i].reply.None?;
            assert polls[i + 1].reply.None?;
          }
        }
        r
      case None =>
        assert polls[0].reply.None?;
        var s := Process(st.buffers, st.fields, last, polls[0].expired, crcFlag);
        WrittenRead(if NeedsBus(s.status) then s.(status := Blocked) else s, true)
  }

  /** Without a raising read the loop as written is the corrected loop. */
  lemma {:induction false} AsWrittenWithoutRaise(polls: seq<Poll>, st: ReadState, last: seq<string>, crcFlag: string)
    requires !ReadRaised(polls)
    ensures ReadLoopAsWritten(polls, st, last, crcFlag) == WrittenRead(ReadLoop(polls, st, crcFlag), false)
    decreases |polls|
  {
    if st.status.Reading? && |polls| > 0 {
      assert polls[0].reply.Some?;
      var reply := polls[0].reply.value;
      AsWrittenWithoutRaise(polls[1..], Process(st.buffers, st.fields, reply, polls[0].expired, crcFlag), reply, crcFlag);
    }
  }

  /** The replies a stream of polls actually delivered, in order. */
  function Received(polls: seq<Poll>): seq<seq<string>>
  {
    if |polls| == 0 then []
    else (if polls[0].reply.Some? then [polls[0].reply.value] else []) + Received(polls[1..])
  }

  /** `AbsorbOne` over a sequence of replies. */
  function Absorb(b: Buffers, replies: seq<seq<string>>): Buffers
    decreases |replies|
  {
    if |replies| == 0 then b else Absorb(AbsorbOne(b, replies[0]), replies[1..])
  }

  /** What one reply contributes to the buffer under `key`: its stripped
      token when it is a data token from that address, else nothing. */
  function Contribution(reply: seq<string>, key: string): string
  {
    if |reply| >= 2 && ReplyKey(reply[0]) == Some(key) && Classify(reply[1]) == Data then Strip(reply[1]) else ""
  }

  /** The contributions of `replies` to the buffer under `key`,
      concatenated in arrival order. */
  function Collected(replies: seq<seq<string>>, key: string): string
  {
    if |replies| == 0 then "" else Contribution(replies[0], key) + Collected(replies[1..], key)
  }

  lemma AbsorbOneAt(b: Buffers, reply: seq<string>, key: string)
    requires key in b
    ensures AbsorbOne(b, reply).Keys == b.Keys
    ensures AbsorbOne(b, reply)[key] == b[key] + Contribution(reply, key)
  {
    if |reply| >= 2 && ReplyKey(reply[0]).Some? && ReplyKey(reply[0]).value in b && Classify(reply[1]) == Data {
      if ReplyKey(reply[0]).value != key {
        assert Contribution(reply, key) == "";
      }
    } else {
      assert Contribution(reply, key) == "";
    }
  }

  lemma {:induction false} ReceivedAppend(a: seq<Poll>, b: seq<Poll>)
    ensures Received(a + b) == Received(a) + Received(b)
  {
    if |a| > 0 {
      assert (a + b)[1..] == a[1..] + b;
      ReceivedAppend(a[1..], b);
    } else {
      assert a + b == b;
    }
  }

  lemma {:induction false} AbsorbAppend(b: Buffers, r1: seq<seq<string>>, r2: seq<seq<string>>)
    ensures Absorb(b, r1 + r2) == Absorb(Absorb(b, r1), r2)
    decreases |r1|
  {
    if |r1| > 0 {
      assert (r1 + r2)[1..] == r1[1..] + r2;
      AbsorbAppend(AbsorbOne(b, r1[0]), r1[1..], r2);
    } else {
      assert r1 + r2 == r2;
    }
  }

  lemma ConcatAssoc(x: string, y: string, z: string)
    ensures x + y + z == x + (y + z)
  {
  }

  /** No cross-contamination: whatever the interleaving of replies from
      different addresses, each buffer ends up as its old contents followed
      by exactly the data tokens filed under its own key, in order, and no
      buffer appears or disappears. */
  lemma {:induction false} AbsorbPerKey(b: Buffers, replies: seq<seq<string>>, key: string)
    requires key in b
    ensures Absorb(b, replies).Keys == b.Keys
    ensures Absorb(b, replies)[key] == b[key] + Collected(replies, key)
    decreases |replies|
  {
    if |replies| > 0 {
      var b1 := AbsorbOne(b, replies[0]);
      var c0 := Contribution(replies[0], key);
      AbsorbOneAt(b, replies[0], key);
      AbsorbPerKey(b1, replies[1..], key);
      var rest := Collected(replies[1..], key);
      assert Collected(replies, key) == c0 + rest;
      ConcatAssoc(b[key], c0, rest);
    }
  }

  /** The corrected loop's buffers are the buffer effect of the replies it
      received before it stopped. */
  lemma {:induction false} ReadLoopAbsorbs(polls: seq<Poll>, st: ReadState, crcFlag: string)
    ensures exists n :: (0 <= n <= |polls| &&
      ReadLoop(polls, st, crcFlag).buffers == Absorb(st.buffers, Received(polls[..n])))
    decreases |polls|
  {
    if !st.status.Reading? || |polls| == 0 {
      assert polls[..0] == [];
      assert ReadLoop(polls, st, crcFlag).buffers == Absorb(st.buffers, Received(polls[..0]));
    } else {
      var st1 := PollStep(st, polls[0], crcFlag);
      ReadLoopAbsorbs(polls[1..], st1, crcFlag);
      var n :| 0 <= n <= |polls[1..]| &&
        ReadLoop(polls[1..], st1, crcFlag).buffers == Absorb(st1.buffers, Received(polls[1..][..n]));
      AbsorbStep(polls, st, crcFlag, n);
    }
  }

  /** One pass followed by `n` more absorbs the first `n + 1` polls. */
  lemma AbsorbStep(polls: seq<Poll>, st: ReadState, crcFlag: string, n: nat)
    requires st.status.Reading? && 0 < |polls| && n < |polls|
    ensures Absorb(PollStep(st, polls[0], crcFlag).buffers, Received(polls[1..][..n]))
            == Absorb(st.buffers, Received(polls[..n + 1]))
  {
    assert polls[..n + 1] == polls[..1] + polls[1..][..n];
    ReceivedAppend(polls[..1], polls[1..][..n]);
    AbsorbAppend(st.buffers, Received(polls[..1]), Received(polls[1..][..n]));
    PollStepAbsorbs(st, polls[0], crcFlag);
    assert polls[..1] == [polls[0]];
  }

  /** One pass has the buffer effect of the reply it received, if any. */
  lemma PollStepAbsorbs(st: ReadState, p: Poll, crcFlag: string)
    requires st.status.Reading?
    ensures PollStep(st, p, crcFlag).buffers == Absorb(st.buffers, Received([p]))
  {
    assert [p][1..] == [];
    if p.reply.Some? {
      assert Received([p]) == [p.reply.value];
      assert [p.reply.value][1..] == [];
    } else {
      assert Received([p]) == [];
    }
  }

  /** The loop ends no later than the first poll at which the time budget
      has run out. */
  lemma {:induction false} StopsByExpiry(polls: seq<Poll>, st: ReadState, crcFlag: string, i: nat)
    requires i < |polls| && polls[i].expired
    ensures !ReadLoop(polls, st, crcFlag).status.Reading?
    ensures ReadLoop(polls, st, crcFlag) == ReadLoop(polls[..i + 1], st, crcFlag)
    decreases i
  {
    if st.status.Reading? {
      assert polls[..i + 1][1..] == polls[1..][..i];
      if i > 0 {
        StopsByExpiry(polls[1..], PollStep(st, polls[0], crcFlag), crcFlag, i - 1);
      }
    }
  }

  /** With a checksum setting other than "y" and "n" the loop never
      completes: it can only time out or fail. */
  lemma {:induction false} UnknownSettingNeverCompletes(polls: seq<Poll>, st: ReadState, crcFlag: string)
    requires crcFlag != "y" && crcFlag != "n"
    requires !st.status.Complete?
    ensures !ReadLoop(polls, st, crcFlag).status.Complete?
    decreases |polls|
  {
    if st.status.Reading? && |polls| > 0 {
      UnknownSettingNeverCompletes(polls[1..], PollStep(st, polls[0], crcFlag), crcFlag);
    }
  }

  /** A token the loop appends as it is and that cannot complete it:
      data, with no surrounding whitespace and no newline. */
  predicate CleanData(tok: string)
  {
    Classify(tok) == Data && Strip(tok) == tok && '\n' !in tok
  }

  /** Every letter, digit and comma the device sends on its own is clean
      data. */
  lemma AnswerCharData(c: char)
    requires IsAlnumChar(c) || c == FieldSep
    ensures CleanData([c])
  {
    if c != FieldSep { assert IsAlnum([c]); }
    TrimUntouched([c], Whitespace);
  }

  function Concat(tokens: seq<string>): string
  {
    if |tokens| == 0 then "" else tokens[0] + Concat(tokens[1..])
  }

  /** The polls that deliver `tokens` in order from address field `addr`,
      within the time budget. */
  function TokenPolls(addr: string, tokens: seq<string>): (polls: seq<Poll>)
    ensures |polls| == |tokens|
    ensures forall i :: 0 <= i < |tokens| ==> polls[i] == Poll(Some([addr, tokens[i]]), false)
  {
    if |tokens| == 0 then [] else [Poll(Some([addr, tokens[0]]), false)] + TokenPolls(addr, tokens[1..])
  }

  /** A stream of clean data tokens fills the addressed buffer, and only
      it, without ending the loop. */
  lemma {:induction false} TokensAccumulate(addr: string, tokens: seq<string>, st: ReadState, crcFlag: string)
    requires st.status.Reading?
    requires ReplyKey(addr).Some? && ReplyKey(addr).value in st.buffers
    requires forall i :: 0 <= i < |tokens| ==> CleanData(tokens[i])
    ensures ReadLoop(TokenPolls(addr, tokens), st, crcFlag).status.Reading?
    ensures ReadLoop(TokenPolls(addr, tokens), st, crcFlag).buffers ==
            st.buffers[ReplyKey(addr).value := st.buffers[ReplyKey(addr).value] + Concat(tokens)]
    decreases |tokens|
  {
    var key := ReplyKey(addr).value;
    if |tokens| == 0 {
      assert st.buffers[key] + Concat(tokens) == st.buffers[key];
      assert st.buffers[key := st.buffers[key] + Concat(tokens)] == st.buffers;
    } else {
      var tok := tokens[0];
      var polls := TokenPolls(addr, tokens);
      var st1 := PollStep(st, Poll(Some([addr, tok]), false), crcFlag);
      assert polls[0] == Poll(Some([addr, tok]), false);
      assert polls[1..] == TokenPolls(addr, tokens[1..]);
      ReadLoopStep(polls, st, crcFlag);
      AnswerTokenStep(addr, tok, st, crcFlag);
      TokensAccumulate(addr, tokens[1..], st1, crcFlag);
      AppendTwice(st.buffers, key, tok, Concat(tokens[1..]));
    }
  }

  lemma ReadLoopStep(polls: seq<Poll>, st: ReadState, crcFlag: string)
    requires st.status.Reading? && |polls| > 0
    ensures ReadLoop(polls, st, crcFlag) == ReadLoop(polls[1..], PollStep(st, polls[0], crcFlag), crcFlag)
  {
  }

  /** Appending twice to one buffer is appending the concatenation. */
  lemma AppendTwice(b: Buffers, key: string, x: string, y: string)
    requires key in b
    ensures b[key := b[key] + x][key := b[key] + x + y] == b[key := b[key] + (x + y)]
  {
    ConcatAssoc(b[key], x, y);
  }

  /** A data token without a newline is appended to the addressed buffer
      and does not end the loop. */
  lemma DataStep(reply: seq<string>, st: ReadState, crcFlag: string)
    requires st.status.Reading?
    requires |reply| >= 2 && ReplyKey(reply[0]).Some? && ReplyKey(reply[0]).value in st.buffers
    requires Classify(reply[1]) == Data && '\n' !in reply[1]
    ensures PollStep(st, Poll(Some(reply), false), crcFlag).status.Reading?
    ensures PollStep(st, Poll(Some(reply), false), crcFlag).buffers ==
            st.buffers[ReplyKey(reply[0]).value := st.buffers[ReplyKey(reply[0]).value] + Strip(reply[1])]
  {
  }

  lemma AnswerTokenStep(addr: string, tok: string, st: ReadState, crcFlag: string)
    requires st.status.Reading?
    requires ReplyKey(addr).Some? && ReplyKey(addr).value in st.buffers
    requires CleanData(tok)
    ensures PollStep(st, Poll(Some([addr, tok]), false), crcFlag).status.Reading?
    ensures PollStep(st, Poll(Some([addr, tok]), false), crcFlag).buffers ==
            st.buffers[ReplyKey(addr).value := st.buffers[ReplyKey(addr).value] + tok]
  {
    var reply := [addr, tok];
    assert reply[0] == addr && reply[1] == tok;
    DataStep(reply, st, crcFlag);
  }

  /** Letters, digits and commas: what a device's answer is made of. */
  predicate AnswerText(text: string)
  {
    forall i :: 0 <= i < |text| ==> IsAlnumChar(text[i]) || text[i] == FieldSep
  }

  /** The device's way of sending text: one character per reply. */
  function Chars(text: string): (tokens: seq<string>)
    ensures |tokens| == |text|
  {
    if |text| == 0 then [] else [[text[0]]] + Chars(text[1..])
  }

  lemma {:induction false} CharsConcat(text: string)
    ensures Concat(Chars(text)) == text
  {
    if |text| > 0 {
      assert Chars(text)[1..] == Chars(text[1..]);
      CharsConcat(text[1..]);
      assert [text[0]] + text[1..] == text;
    }
  }

  lemma {:induction false} CharsClean(text: string)
    requires AnswerText(text)
    ensures forall i :: 0 <= i < |Chars(text)| ==> CleanData(Chars(text)[i])
  {
    if |text| > 0 {
      var tokens := Chars(text);
      var rest := Chars(text[1..]);
      assert tokens == [[text[0]]] + rest;
      assert AnswerText(text[1..]) by {
        forall i | 0 <= i < |text[1..]| ensures IsAlnumChar(text[1..][i]) || text[1..][i] == FieldSep {
          assert text[1..][i] == text[i + 1];
        }
      }
      CharsClean(text[1..]);
      forall i | 0 <= i < |tokens|
        ensures CleanData(tokens[i])
      {
        if i == 0 {
          AnswerCharData(text[0]);
        } else {
          assert tokens[i] == rest[i - 1];
        }
      }
    }
  }

  /** The replies that carry `text` one character at a time from address
      field `addr`, closed by a newline token. */
  function AnswerPolls(addr: string, text: string): seq<Poll>
  {
    TokenPolls(addr, Chars(text)) + [Poll(Some([addr, "\n"]), false)]
  }

  /** Every read of an answer's polls returns. */
  lemma AnswerPollsDeliver(addr: string, text: string)
    ensures !ReadRaised(AnswerPolls(addr, text))
  {
    var polls := AnswerPolls(addr, text);
    var tokens := TokenPolls(addr, Chars(text));
    forall i | 0 <= i < |polls|
      ensures polls[i].reply.Some?
    {
      if i < |tokens| {
        assert polls[i] == tokens[i];
      }
    }
  }

  /** An answer sent one character per reply and closed by a newline
      completes the loop on the addressed buffer with exactly the answer in
      it, when it has the field count the checksum setting expects. */
  lemma AnswerTextCompletes(addr: string, text: string, b: Buffers, crcFlag: string)
    requires ReplyKey(addr).Some? && ReplyKey(addr).value in b && b[ReplyKey(addr).value] == ""
    requires AnswerText(text)
    requires (crcFlag == "y" && Count(text, FieldSep) == 3) || (crcFlag == "n" && Count(text, FieldSep) == 2)
    ensures var r := ReadLoop(AnswerPolls(addr, text), ReadState(b, [], Reading), crcFlag);
            && r.status == Complete(ReplyKey(addr).value)
            && ReplyKey(addr).value in r.buffers
            && r.buffers[ReplyKey(addr).value] == text
            && r.fields == Split(text, FieldSep)
  {
    var tokens := Chars(text);
    assert Concat(tokens) == text by { CharsConcat(text); }
    assert forall i :: 0 <= i < |tokens| ==> CleanData(tokens[i]) by { CharsClean(text); }
    AnswerCompletes(addr, tokens, b, crcFlag);
  }

  /** Text joined from alphanumeric fields with commas is answer text. */
  lemma {:induction false} JoinedAnswerText(fields: seq<string>)
    requires forall i :: 0 <= i < |fields| ==> IsAlnum(fields[i])
    ensures AnswerText(Join(fields, FieldSep))
  {
    if |fields| > 1 {
      JoinedAnswerText(fields[1..]);
      var t := Join(fields[1..], FieldSep);
      var s := fields[0] + [FieldSep] + t;
      forall i | 0 <= i < |s|
        ensures IsAlnumChar(s[i]) || s[i] == FieldSep
      {
        if i < |fields[0]| {
          assert s[i] == fields[0][i];
        } else if i > |fields[0]| {
          assert s[i] == t[i - |fields[0]| - 1];
        }
      }
    }
  }

  /** An answer sent as clean data tokens and closed by a newline token
      completes the loop on the addressed buffer with exactly the answer in
      it, when the answer has the field count the checksum setting
      expects. */
  lemma AnswerCompletes(addr: string, tokens: seq<string>, b: Buffers, crcFlag: string)
    requires ReplyKey(addr).Some? && ReplyKey(addr).value in b && b[ReplyKey(addr).value] == ""
    requires forall i :: 0 <= i < |tokens| ==> CleanData(tokens[i])
    requires || (crcFlag == "y" && Count(Concat(tokens), FieldSep) == 3)
             || (crcFlag == "n" && Count(Concat(tokens), FieldSep) == 2)
    ensures var r := ReadLoop(TokenPolls(addr, tokens) + [Poll(Some([addr, "\n"]), false)], ReadState(b, [], Reading), crcFlag);
            && r.status == Complete(ReplyKey(addr).value)
            && ReplyKey(addr).value in r.buffers
            && r.buffers[ReplyKey(addr).value] == Concat(tokens)
            && r.fields == Split(Concat(tokens), FieldSep)
  {
    var key := ReplyKey(addr).value;
    var st := ReadState(b, [], Reading);
    var polls := TokenPolls(addr, tokens);
    var last := Poll(Some([addr, "\n"]), false);
    TokensAccumulate(addr, tokens, st, crcFlag);
    var mid := ReadLoop(polls, st, crcFlag);
    assert mid.buffers[key] == Concat(tokens);
    ReadLoopSplit(polls, [last], st, crcFlag);
    assert ReadLoop([last], mid, crcFlag) == ReadLoop([], PollStep(mid, last, crcFlag), crcFlag);
    NewlineCompletes(addr, mid, crcFlag);
  }

  /** A newline token completes the loop when the addressed buffer has the
      expected field count. */
  lemma NewlineCompletes(addr: string, st: ReadState, crcFlag: string)
    requires st.status.Reading?
    requires ReplyKey(addr).Some? && ReplyKey(addr).value in st.buffers
    requires Finished(|Split(st.buffers[ReplyKey(addr).value], FieldSep)|, "\n", crcFlag)
    ensures PollStep(st, Poll(Some([addr, "\n"]), false), crcFlag) ==
            ReadState(st.buffers, Split(st.buffers[ReplyKey(addr).value], FieldSep), Complete(ReplyKey(addr).value))
  {
    var reply := [addr, "\n"];
    assert reply[0] == addr && reply[1] == "\n";
    assert Classify("\n") == Idle by { assert !IsAlnum("\n"); }
  }

  /** Running the loop over two stream pieces in turn. */
  lemma {:induction false} ReadLoopSplit(p1: seq<Poll>, p2: seq<Poll>, st: ReadState, crcFlag: string)
    ensures ReadLoop(p1 + p2, st, crcFlag) == ReadLoop(p2, ReadLoop(p1, st, crcFlag), crcFlag)
    decreases |p1|
  {
    if |p1| == 0 {
      assert p1 + p2 == p2;
    } else if st.status.Reading? {
      assert (p1 + p2)[1..] == p1[1..] + p2;
      ReadLoopSplit(p1[1..], p2, PollStep(st, p1[0], crcFlag), crcFlag);
    } else {
      assert ReadLoop(p2, st, crcFlag) == st by { ReadLoopStopped(p2, st, crcFlag); }
    }
  }

  lemma ReadLoopStopped(polls: seq<Poll>, st: ReadState, crcFlag: string)
    requires !st.status.Reading?
    ensures ReadLoop(polls, st, crcFlag) == st
  {
  }

  /** The loop as written processes a reply twice when the read after it
      raises: a data token followed by a failed read ends up twice in the
      buffer (address "8", token "5": "55"), and the loop, which needs the
      bus for its next poll, blocks for good. Skipping the failed read, as
      the corrected loop does, appends the token once and keeps reading. */
  lemma StaleReplyDuplicates(addr: string, tok: string, b: Buffers, crcFlag: string)
    requires ReplyKey(addr).Some? && ReplyKey(addr).value in b
    requires CleanData(tok)
    ensures var polls := [Poll(Some([addr, tok]), false), Poll(None, false)];
            var st := ReadState(b, [], Reading);
            var key := ReplyKey(addr).value;
            var w := ReadLoopAsWritten(polls, st, [], crcFlag);
            var r := ReadLoop(polls, st, crcFlag);
            && w.state.buffers == b[key := b[key] + tok + tok] && w.state.status == Blocked && w.lockHeld
            && r.buffers == b[key := b[key] + tok] && r.status == Reading
  {
    var key := ReplyKey(addr).value;
    var reply := [addr, tok];
    var st := ReadState(b, [], Reading);
    assert Strip(tok) == tok;
    DataStep(reply, st, crcFlag);
    var st1 := PollStep(st, Poll(Some(reply), false), crcFlag);
    assert st1.status.Reading? && st1.buffers == b[key := b[key] + tok];
    DataStep(reply, st1, crcFlag);
    AppendTwice(b, key, tok, tok);
    StaleReplySteps(reply, st, crcFlag);
  }

  /** The two loops on a reply followed by a failed read, when neither
      pass ends the read: the loop as written processes the reply a second
      time and blocks, the corrected loop stops after it. */
  lemma StaleReplySteps(reply: seq<string>, st: ReadState, crcFlag: string)
    requires st.status.Reading?
    requires PollStep(st, Poll(Some(reply), false), crcFlag).status.Reading?
    requires PollStep(PollStep(st, Poll(Some(reply), false), crcFlag), Poll(Some(reply), false), crcFlag).status.Reading?
    ensures var polls := [Poll(Some(reply), false), Poll(None, false)];
            var st1 := PollStep(st, Poll(Some(reply), false), crcFlag);
            && ReadLoopAsWritten(polls, st, [], crcFlag)
               == WrittenRead(PollStep(st1, Poll(Some(reply), false), crcFlag).(status := Blocked), true)
            && ReadLoop(polls, st, crcFlag) == st1
  {
    var polls := [Poll(Some(reply), false), Poll(None, false)];
    var st1 := PollStep(st, Poll(Some(reply), false), crcFlag);
    assert polls[1..][1..] == [];
    assert ReadLoopAsWritten(polls, st, [], crcFlag) == ReadLoopAsWritten(polls[1..], st1, reply, crcFlag);
    assert ReadLoop(polls, st, crcFlag) == ReadLoop(polls[1..], st1, crcFlag);
  }
}
