/** A question's text is lent to a send stream (server_worker.c) while its task and the other questions on the
    same text come and go (eq_gen.c): no byte is sent from a text that was freed. */
module TextLoan {
  import opened Common
  import opened Segments
  import opened StreamSpec
  import opened ByteStream
  import opened EqTask
  import EqPrint

  /** The bytes in the block, without the NUL at its end. */
  function TextOf(q: Question): seq<char>
    requires q.text.mem.Length > 0
    reads q.text.mem
  {
    q.text.mem[..q.text.mem.Length - 1]
  }

  /** What can happen while the text is being sent: the socket takes some, or the task and its other questions
      are used. */
  datatype Moment = Ready(len: nat) | Meanwhile(u: Use)

  lemma LengthIsExact(stream: Stream)
    requires stream.Valid() && stream.uncounted == 0
    ensures stream.totalLen == |stream.Contents()|
  {
  }

  /** `bstream_read` of a stream that borrows the text, which must not have been freed; `sent` says how much of
      it the socket took before. */
  method Deliver(q: Question, stream: Stream, socket: Writer, len: nat, ghost sent: nat) returns (read: nat)
    requires stream.Valid() && stream.uncounted == 0 && !q.text.freed && q.text.mem.Length > 0
    requires sent <= |TextOf(q)| && stream.Contents() == TextOf(q)[sent..]
    modifies stream, stream.book.segments.Keys, socket
    ensures stream.Valid() && stream.uncounted == 0 && stream.totalLen == |stream.Contents()|
    ensures sent + read <= |TextOf(q)| && stream.Contents() == TextOf(q)[sent + read..]
    ensures socket.accepted == old(socket.accepted) + TextOf(q)[sent..sent + read]
    ensures stream.book.segments == old(stream.book.segments)
  {
    hide Stream.Valid, Stream.Contents, ReadRun, BoundedRead, TextOf;
    read := stream.Read(socket, len);
    LengthIsExact(stream);
    Slices(TextOf(q), sent, read);
  }

  lemma Slices(text: seq<char>, sent: nat, read: nat)
    requires sent + read <= |text|
    ensures text[sent..][..read] == text[sent..sent + read] && text[sent..][read..] == text[sent + read..]
    ensures text[..sent] + text[sent..sent + read] == text[..sent + read]
  {
  }

  /** The task and the other questions. `q` stays. */
  method Elsewhere(task: Task, q: Question, u: Use, gone: bool, open: set<Question>)
    returns (left: set<Question>, crashed: bool)
    requires task.Valid() && task.alive == !gone && open == task.questions && q in open
    modifies task, task.textRc
    ensures task.textRc == old(task.textRc)
    ensures !crashed ==> task.Valid() && task.alive == !(gone || u.End?) && left == task.questions && q in left
  {
    hide Task.Valid, EqPrint.Text;
    task.CountersFit();
    left, crashed := open, false;
    match u {
      case Ask(textGranted, questionGranted) =>
        if !gone {
          var r := task.GetQuestion(textGranted, questionGranted);
          crashed := r.Crashed?;
          if r.Asked? { left := left + {r.question}; }
        }
      case Show =>
        var r :| r in open;
        var _ := task.QuestionText(r);
      case Drop =>
        if open - {q} != {} {
          var r :| r in open - {q};
          task.DestroyQuestion(r);
          left := left - {r};
        }
      case End =>
        if !gone { task.Free(); }
    }
  }

  lemma LiveText(task: Task, q: Question)
    requires task.Valid() && q in task.questions
    ensures !q.text.freed && q.text == task.textRc && q.text.mem.Length > 0 && TextOf(q) == EqPrint.Text(task.eq)
  {
    CardinalityOfMember(task.questions, q);
  }

  /** The text is lent to an empty stream. */
  method Lend(task: Task, q: Question, granted: bool) returns (stream: Stream, ok: bool)
    requires task.Valid() && q in task.questions
    ensures fresh(stream) && fresh(stream.book.segments.Keys) && stream.Valid() && stream.uncounted == 0
    ensures stream.totalLen == |stream.Contents()|
    ensures ok <==> |EqPrint.Text(task.eq)| <= SIZE_MAX && (granted || EqPrint.Text(task.eq) == [])
    ensures stream.Contents() == if ok then EqPrint.Text(task.eq) else []
  {
    hide Stream.Valid, Task.Valid, EqPrint.Text;
    stream := new Stream();
    var text := task.QuestionText(q);
    var written := stream.WriteBorrow(text, granted);
    ok := written == |text|;
    LengthIsExact(stream);
    FlattenOne(text);
  }

  lemma FlattenOne(text: seq<char>)
    ensures Flatten([] + [text]) == text && Flatten([]) == []
  {
    assert [text][1..] == [] && [] + [text] == [text] && text + [] == text;
  }

  /** The socket takes some of the text. */
  method Take(task: Task, q: Question, stream: Stream, socket: Writer, len: nat, ghost given: seq<char>)
    returns (ghost more: seq<char>)
    requires task.Valid() && q in task.questions && stream.Valid() && stream.uncounted == 0
    requires given <= EqPrint.Text(task.eq) && stream.Contents() == EqPrint.Text(task.eq)[|given|..]
    modifies stream, stream.book.segments.Keys, socket
    ensures stream.Valid() && stream.uncounted == 0 && stream.totalLen == |stream.Contents()|
    ensures given <= more <= EqPrint.Text(task.eq) && stream.Contents() == EqPrint.Text(task.eq)[|more|..]
    ensures socket.accepted == old(socket.accepted) + more[|given|..]
    ensures stream.book.segments == old(stream.book.segments)
  {
    hide Stream.Valid, Stream.Contents, Task.Valid, EqPrint.Text, TextOf;
    LiveText(task, q);
    ghost var text := EqPrint.Text(task.eq);
    var read := Deliver(q, stream, socket, len, |given|);
    Slices(text, |given|, read);
    more := text[..|given| + read];
    assert more[|given|..] == text[|given|..|given| + read];
  }

  /** From the lending of the text to the destruction of its question, whatever happens in between: the socket
      is given a beginning of the equation's text, and all of it when the stream has become empty. */
  method Send(task: Task, q: Question, questions: set<Question>, socket: Writer, moments: seq<Moment>, granted: bool)
    returns (ghost given: seq<char>, all: bool, crashed: bool)
    requires task.Valid() && task.alive && questions == task.questions && q in questions
    modifies task, task.textRc, socket
    ensures socket.accepted == old(socket.accepted) + given && given <= EqPrint.Text(task.eq)
    ensures all ==> given == EqPrint.Text(task.eq)
    ensures !crashed ==> task.Valid() && q !in task.questions
  {
    hide Stream.Valid, Stream.Contents, Task.Valid, EqPrint.Text, TextOf;
    ghost var text := EqPrint.Text(task.eq);
    var open, gone := questions, false;
    given, all, crashed := [], false, false;
    var stream, ok := Lend(task, q, granted);
    for i := 0 to if ok then |moments| else 0
      invariant task.Valid() && task.alive == !gone && open == task.questions && q in open
      invariant task.textRc == old(task.textRc)
      invariant fresh(stream) && fresh(stream.book.segments.Keys) && stream.Valid() && stream.uncounted == 0
      invariant stream.totalLen == |stream.Contents()|
      invariant given <= text
      invariant ok ==> stream.Contents() == text[|given|..]
      invariant socket.accepted == old(socket.accepted) + given
    {
      match moments[i] {
        case Ready(len) =>
          given := Take(task, q, stream, socket, len, given);
          if stream.totalLen == 0 { break; }
        case Meanwhile(u) =>
          open, crashed := Elsewhere(task, q, u, gone, open);
          if crashed { return; }
          gone := gone || u.End?;
      }
    }
    all := ok && stream.totalLen == 0;
    assert all ==> given == text;
    stream.Flush();
    task.DestroyQuestion(q);
  }
}
