/** Assets/MessageLog.cs: the combat log. A queue of at most maxMessages
    lines, oldest first, and one temporary line shown after them until its
    timer, run down by the per-frame Update, reaches zero or a new message
    arrives. */
module MessageLogs {
  import opened Wrappers
  import opened Text

  /** The queue after Enqueue and, when it has grown past the limit, one
      Dequeue. */
  function Enqueued(queue: seq<string>, message: string, maxMessages: int): seq<string> {
    var grown := queue + [message];
    if |grown| > maxMessages then grown[1..] else grown
  }

  /** The number of lines the queue can hold. */
  function Capacity(maxMessages: int): nat {
    if maxMessages < 0 then 0 else maxMessages
  }

  /** A queue within the limit stays within it and keeps the newest lines:
      the result is the last min(n + 1, limit) lines of the old queue
      followed by the new message. */
  lemma EnqueuedKeepsNewest(queue: seq<string>, message: string, maxMessages: int)
    requires |queue| <= Capacity(maxMessages)
    ensures var r := Enqueued(queue, message, maxMessages);
            |r| == (if |queue| + 1 <= Capacity(maxMessages) then |queue| + 1 else Capacity(maxMessages))
            && r == (queue + [message])[|queue| + 1 - |r|..]
            && (maxMessages >= 1 ==> r[|r| - 1] == message)
  {
  }

  /** The text shown for the queue and the stored temporary line. */
  function Rendered(messages: seq<string>, temporary: Option<string>): string {
    var combined := Join(messages, '\n');
    if temporary.None? then combined
    else if combined != "" then combined + "\n" + temporary.value
    else temporary.value
  }

  /** A log of single-line messages with a single-line temporary message
      shows one line per message and the temporary message as the last
      line. */
  lemma RenderedLines(messages: seq<string>, temporary: string)
    requires |messages| >= 1 && Join(messages, '\n') != ""
    requires forall i :: 0 <= i < |messages| ==> '\n' !in messages[i]
    requires '\n' !in temporary
    ensures Split(Rendered(messages, Some(temporary)), '\n') == messages + [temporary]
  {
    JoinAppend(messages, temporary, '\n');
    var all := messages + [temporary];
    assert forall i :: 0 <= i < |all| ==> '\n' !in all[i] by {
      forall i | 0 <= i < |all| ensures '\n' !in all[i] {
        if i < |messages| {
          assert all[i] == messages[i];
        }
      }
    }
    SplitJoin(all, '\n');
  }

  /** The timer of a stored temporary line after frames of the given
      durations, or None once a frame has brought it to zero or below and the
      line has been removed. */
  function Ticked(timer: real, frames: seq<real>): Option<real>
    decreases |frames|
  {
    if frames == [] then Some(timer)
    else if timer - frames[0] <= 0.0 then Option.None
    else Ticked(timer - frames[0], frames[1..])
  }

  function Sum(frames: seq<real>): (r: real)
    ensures (forall i :: 0 <= i < |frames| ==> frames[i] >= 0.0) ==> r >= 0.0
    decreases |frames|
  {
    if frames == [] then 0.0 else frames[0] + Sum(frames[1..])
  }

  /** Frame durations are never negative, so the line is removed exactly when
      at least one frame has passed and the frames add up to its timer; until
      then the timer is what is left of it. */
  lemma {:induction false} TickedExpires(timer: real, frames: seq<real>)
    requires forall i :: 0 <= i < |frames| ==> frames[i] >= 0.0
    ensures Ticked(timer, frames).None? <==> |frames| > 0 && Sum(frames) >= timer
    ensures Ticked(timer, frames).Some? ==> Ticked(timer, frames).value == timer - Sum(frames)
    decreases |frames|
  {
    if frames != [] {
      assert forall i :: 0 <= i < |frames[1..]| ==> frames[1..][i] == frames[i + 1];
      TickedExpires(timer - frames[0], frames[1..]);
    }
  }

  class MessageLog {
    /** Inspector settings; the defaults are 6 lines and 2 seconds. */
    const maxMessages: int
    const tempMessageDuration: real
    /** The queue, oldest line first. */
    var messages: seq<string>
    var temporaryMessage: Option<string>
    var tempMessageTimer: real
    /** The text of the log's label. */
    var logText: string

    constructor (maxMessages: int, tempMessageDuration: real)
      ensures this.maxMessages == maxMessages && this.tempMessageDuration == tempMessageDuration
      ensures messages == [] && temporaryMessage.None? && tempMessageTimer == 0.0 && logText == ""
    {
      this.maxMessages := maxMessages;
      this.tempMessageDuration := tempMessageDuration;
      messages := [];
      temporaryMessage := Option.None;
      tempMessageTimer := 0.0;
      logText := "";
    }

    /** The queue holds no more lines than the limit allows. */
    ghost predicate Bounded()
      reads this`messages
    {
      |messages| <= Capacity(maxMessages)
    }

    /** The per-frame tick, given the frame's duration: while a temporary
        line is stored its timer runs down by that duration, and the line is
        removed once the timer is at or below zero (one step of Ticked).
        Without a temporary line nothing changes. */
    method Update(deltaTime: real)
      modifies this`temporaryMessage, this`tempMessageTimer, this`logText
      ensures old(temporaryMessage).None? ==>
                temporaryMessage.None? && tempMessageTimer == old(tempMessageTimer) && logText == old(logText)
      ensures old(temporaryMessage).Some? ==>
                (temporaryMessage.None? <==> Ticked(old(tempMessageTimer), [deltaTime]).None?)
      ensures old(temporaryMessage).Some? ==> tempMessageTimer == old(tempMessageTimer) - deltaTime
      ensures old(temporaryMessage).Some? && tempMessageTimer <= 0.0 ==>
                temporaryMessage.None? && logText == Join(messages, '\n')
      ensures old(temporaryMessage).Some? && tempMessageTimer > 0.0 ==>
                temporaryMessage == old(temporaryMessage) && logText == old(logText)
    {
      if temporaryMessage.Some? {
        tempMessageTimer := tempMessageTimer - deltaTime;
        if tempMessageTimer <= 0.0 {
          RemoveTemporaryMessage();
        }
      }
    }

    /** Appends a line, dropping the oldest one past the limit, and removes
        the temporary line. */
    method AddMessage(message: string)
      modifies this`messages, this`temporaryMessage, this`logText
      ensures messages == Enqueued(old(messages), message, maxMessages)
      ensures temporaryMessage.None? && logText == Rendered(messages, Option.None)
      ensures old(Bounded()) ==> Bounded()
    {
      messages := messages + [message];
      if |messages| > maxMessages {
        messages := messages[1..];
      }
      RemoveTemporaryMessage();
      UpdateLog();
    }

    /** Shows `message` after the log for tempMessageDuration seconds. */
    method AddTemporaryMessage(message: string)
      modifies this`temporaryMessage, this`tempMessageTimer, this`logText
      ensures tempMessageTimer == tempMessageDuration
      ensures temporaryMessage == Some(if Join(messages, '\n') != "" then "\n" + message else message)
      ensures logText == Rendered(messages, Some(message))
    {
      temporaryMessage := Some(message);
      tempMessageTimer := tempMessageDuration;
      UpdateLog();
      ghost var combined := Join(messages, '\n');
      if combined != "" {
        assert combined + ("\n" + message) == combined + "\n" + message;
      }
    }

    method RemoveTemporaryMessage()
      modifies this`temporaryMessage, this`logText
      ensures temporaryMessage.None? && logText == Join(messages, '\n')
    {
      temporaryMessage := Option.None;
      UpdateLog();
    }

    /** Rebuilds the label: the lines joined by "\n", then the temporary
        line, which is stored with a "\n" in front first when the log is not
        empty. Each such rebuild adds one more "\n" to the stored line. */
    method UpdateLog()
      modifies this`temporaryMessage, this`logText
      ensures old(temporaryMessage).None? ==> temporaryMessage.None? && logText == Join(messages, '\n')
      ensures old(temporaryMessage).Some? ==>
                var combined := Join(messages, '\n');
                temporaryMessage == Some(if combined != "" then "\n" + old(temporaryMessage).value
                                         else old(temporaryMessage).value)
                && logText == combined + temporaryMessage.value
    {
      var combinedLog := Join(messages, '\n');
      if temporaryMessage.Some? {
        if combinedLog != "" {
          temporaryMessage := Some("\n" + temporaryMessage.value);
        }
        combinedLog := combinedLog + temporaryMessage.value;
      }
      logText := combinedLog;
    }

    /** Empties the queue and stops the timer. The label is not rebuilt and
        the temporary line stays. */
    method ClearMessages()
      modifies this`messages, this`tempMessageTimer
      ensures messages == [] && tempMessageTimer == 0.0
    {
      messages := [];
      tempMessageTimer := 0.0;
    }
  }
}
