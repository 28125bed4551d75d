/** One equation task (eq_gen.c): its question text is printed once and shared by reference counting,
    its answer is computed once, and both come from the same chain. */
module EqTask {
  import opened Common
  import opened Equation
  import opened RcMem
  import EqSolve
  import EqPrint
  import EqAnswer
  import EqRead

  class Question {
    const text: Block

    constructor (text: Block)
      ensures this.text == text
    {
      this.text := text;
    }
  }

  /** `Crashed`: the text buffer could not be allocated, and the source writes its last byte before
      it looks; or the reference counter overflowed, which the source asserts against. */
  datatype Asking = NoQuestion | Asked(question: Question) | Crashed

  class Task {
    const eq: seq<Elem>
    ghost const tree: Expression   // what eq_generate made a chain of

    var textRc: Block?
    var textCached: bool
    var answer: int
    var answerCached: bool

    ghost var alive: bool
    ghost var questions: set<Question>   // handed out and not yet destroyed

    ghost function CacheReferences(): nat
      reads this
    {
      if alive && textCached then 1 else 0
    }

    /** In every state of every run: the text block's counter is the cache's reference plus the live
        questions, the block is freed exactly when that is zero, and until then it holds the text. */
    ghost predicate Valid()
      reads this, textRc, if textRc == null then {} else {textRc.mem}
    {
      && eq == FlattenExpression(tree)
      && eq != []
      && (textRc == null <==> !textCached)
      && (textRc == null ==> questions == {})
      && (textRc != null ==>
            && (forall q :: q in questions ==> q.text == textRc)
            && textRc.freed == (CacheReferences() + |questions| == 0)
            && (!textRc.freed ==>
                  && textRc.counter == CacheReferences() + |questions| <= UINT_MAX
                  && textRc.mem[..] == EqPrint.Text(eq) + [EqPrint.NUL]))
      && (answerCached ==> answer == ExpressionValue(tree))
    }

    /** `eq_gen_generate`, given the chain `eq_generate` returned. */
    constructor (eq: seq<Elem>, ghost tree: Expression)
      requires eq == FlattenExpression(tree)
      ensures Valid() && alive && this.eq == eq && this.tree == tree && questions == {} && !textCached
    {
      this.eq, this.tree := eq, tree;
      textRc, textCached := null, false;
      answer, answerCached := 0, false;
      alive, questions := true, {};
      new;
      SentenceNotEmpty(tree);
    }

    /** `eq_get_question`. `textGranted` and `questionGranted` are the outcomes of its allocations. */
    method GetQuestion(textGranted: bool, questionGranted: bool) returns (r: Asking)
      requires Valid() && alive
      modifies this, textRc
      ensures alive && answerCached == old(answerCached)
      ensures !r.Crashed? ==> Valid()
      ensures r.Asked? ==> fresh(r.question) && questions == old(questions) + {r.question} && r.question.text == textRc
      ensures r.Asked? ==> textCached && !textRc.freed && textRc.mem[..] == EqPrint.Text(eq) + [EqPrint.NUL]
      ensures !r.Asked? ==> questions == old(questions)
      ensures r.Asked? <==>
        && (old(textCached) || (|EqPrint.Text(eq)| + 1 + HEADER <= SIZE_MAX && textGranted))
        && questionGranted
        && |old(questions)| + 1 < UINT_MAX
      ensures r.Crashed? <==>
        if !old(textCached) && |EqPrint.Text(eq)| + 1 <= SIZE_MAX
           && (|EqPrint.Text(eq)| + 1 + HEADER > SIZE_MAX || !textGranted) then true
        else old(textCached) && questionGranted && |old(questions)| + 1 == UINT_MAX
      ensures old(textCached) ==> textRc == old(textRc)
      ensures textCached <==> old(textCached) || (|EqPrint.Text(eq)| + 1 + HEADER <= SIZE_MAX && textGranted)
      ensures !old(textCached) && textRc != null ==> fresh(textRc) && fresh(textRc.mem)
    {
      hide EqPrint.Text;
      if !textCached {
        var size := EqPrint.CalcStrSize(eq);
        if size == 0 { return NoQuestion; }
        var block := Alloc(size, textGranted);
        if block == null { return Crashed; }
        block.mem[size - 1] := EqPrint.NUL;
        var ok := EqPrint.Print(eq, block.mem);
        assert block.mem[..] == block.mem[..size - 1] + [block.mem[size - 1]];
        assert ok;   // so the source's release of the block on a failed print is never reached
        textRc := block;
        textCached := true;
      }
      if !questionGranted { return NoQuestion; }
      var taken := textRc.Take();
      if !taken { return Crashed; }
      var q := new Question(textRc);
      questions := questions + {q};
      r := Asked(q);
    }

    lemma CountersFit()
      requires Valid()
      ensures !textCached ==> textRc == null && questions == {}
      ensures textCached ==> textRc != null
      ensures textCached && alive ==> |questions| + 1 <= UINT_MAX
    {
    }

    /** `question_get_text`: a live question's text is never read after it was freed, and is the text
        of the equation. */
    method QuestionText(q: Question) returns (s: string)
      requires Valid() && q in questions
      ensures !q.text.freed && s == EqPrint.Text(eq) && EqRead.ReadText(s) == Some(eq)
    {
      hide EqRead.ReadText;
      EqPrint.ReadsBack(eq);
      CardinalityOfMember(questions, q);
      s := q.text.mem[..q.text.mem.Length - 1];
    }

    /** `question_destroy`, which may come after the task is gone. */
    method DestroyQuestion(q: Question)
      requires Valid() && q in questions
      modifies this, textRc
      ensures Valid() && alive == old(alive) && textCached == old(textCached) && answerCached == old(answerCached)
      ensures questions == old(questions) - {q} && textRc == old(textRc)
      ensures textRc.freed == (!alive && questions == {})
    {
      CardinalityOfMember(questions, q);
      q.text.Put();
      questions := questions - {q};
    }

    /** `eq_free`. */
    method Free()
      requires Valid() && alive
      modifies this, textRc
      ensures Valid() && !alive && questions == old(questions) && textRc == old(textRc) && textCached == old(textCached)
      ensures textRc != null ==> textRc.freed == (questions == {})
    {
      if textCached { textRc.Put(); }
      alive := false;
    }

    /** `eq_check`; `bytes` is what can be read from the client. The one number accepted is the value of the only
        expression that prints as the question's text, on the first call and on every later one. */
    method Check(bytes: string) returns (r: AnswerState)
      requires Valid() && alive
      modifies this
      ensures Valid() && alive && questions == old(questions) && textRc == old(textRc)
      ensures r == if EqAnswer.ReadNumber(bytes) == EqRead.ValueOf(EqPrint.Text(eq)) then Right else Wrong
      ensures r == EqAnswer.Grade(tree, bytes)
      ensures forall e :: EqPrint.Text(FlattenExpression(e)) == EqPrint.Text(eq)
                     ==> (r == Right <==> EqAnswer.ReadNumber(bytes) == Some(ExpressionValue(e)))
    {
      hide EqAnswer.ReadNumber, EqRead.ValueOf;
      EqAnswer.RightIffShown(tree, bytes);
      forall e | EqPrint.Text(FlattenExpression(e)) == EqPrint.Text(eq)
        ensures e == tree
      {
        EqPrint.TextInjective(e, tree);
      }
      if !answerCached {
        assert EqSolve.EndsExpression([]) && eq == FlattenExpression(tree) + [];
        var status, value := EqSolve.Solve(eq);
        if status != EqSolve.Succeeded { return Wrong; }
        answer := value;
        answerCached := true;
      }
      var given := EqAnswer.ReadNumber(bytes);
      if given == None { return Wrong; }
      r := if given.value == answer then Right else Wrong;
    }
  }

  /** What can be done with a task and its questions. `Show` and `Drop` mean any question that is not
      destroyed yet. */
  datatype Use = Ask(textGranted: bool, questionGranted: bool) | Show | Drop | End

  /** Whether there is a text, whether the task is gone, and how many questions are open and were shown. */
  datatype Life = Life(cached: bool, gone: bool, open: nat, shown: nat, crashed: bool)
  {
    /** After one more use, for a text of `size` bytes. */
    function After(u: Use, size: nat): Life {
      if crashed then this
      else
        match u
        case Ask(textGranted, questionGranted) =>
          if gone then this
          else
            var granted := size + HEADER <= SIZE_MAX && textGranted;
            if !cached && size <= SIZE_MAX && !granted then this.(crashed := true)
            else
              var there := this.(cached := cached || granted);
              if !there.cached || !questionGranted then there
              else if open + 1 >= UINT_MAX then there.(crashed := true)
              else there.(open := open + 1)
        case Show => this.(shown := shown + if open == 0 then 0 else 1)
        case Drop => this.(open := if open == 0 then 0 else open - 1)
        case End => this.(gone := true)
    }
  }

  function LifeOf(uses: seq<Use>, size: nat): Life {
    if uses == [] then Life(false, false, 0, 0, false)
    else LifeOf(uses[..|uses| - 1], size).After(uses[|uses| - 1], size)
  }

  lemma {:induction false} StaysCrashed(uses: seq<Use>, n: nat, size: nat)
    requires n <= |uses| && LifeOf(uses[..n], size).crashed
    ensures LifeOf(uses, size) == LifeOf(uses[..n], size)
  {
    if n < |uses| {
      assert uses[..|uses| - 1][..n] == uses[..n];
      StaysCrashed(uses[..|uses| - 1], n, size);
    } else {
      assert uses[..n] == uses;
    }
  }

  lemma OneUse(uses: seq<Use>, i: nat, size: nat)
    requires i < |uses|
    ensures LifeOf(uses[..i + 1], size) == LifeOf(uses[..i], size).After(uses[i], size)
  {
    assert uses[..i + 1][..i] == uses[..i];
  }

  /** The end of a run: the task goes, if it is still there, and then the questions that are left. */
  method Finish(task: Task, gone: bool, questions: set<Question>)
    requires task.Valid() && task.alive == !gone && questions == task.questions
    modifies task, task.textRc
    ensures task.Valid() && task.textRc == old(task.textRc)
    ensures task.textRc != null ==> task.textRc.freed
  {
    var open := questions;
    if !gone { task.Free(); }
    while open != {}
      invariant task.Valid() && !task.alive && open == task.questions && task.textRc == old(task.textRc)
      decreases |open|
    {
      var q :| q in open;
      task.DestroyQuestion(q);
      open := open - {q};
    }
  }

  /** What the outcome of `eq_get_question` means for the counts. */
  lemma AskingCounts(life: Life, textGranted: bool, questionGranted: bool, size: nat, cached: bool, asked: bool,
      crashed: bool)
    requires !life.gone && !life.crashed && (if life.cached then life.open + 1 <= UINT_MAX else life.open == 0)
    requires cached <==> life.cached || (size + HEADER <= SIZE_MAX && textGranted)
    requires asked <==> cached && questionGranted && life.open + 1 < UINT_MAX
    requires crashed <==>
      if !life.cached && size <= SIZE_MAX && (size + HEADER > SIZE_MAX || !textGranted) then true
      else life.cached && questionGranted && life.open + 1 == UINT_MAX
    ensures life.After(Ask(textGranted, questionGranted), size)
         == Life(cached, false, life.open + if asked then 1 else 0, life.shown, crashed)
  {
  }

  lemma OtherCounts(life: Life, size: nat)
    requires !life.crashed
    ensures life.gone ==> forall t, q :: life.After(Ask(t, q), size) == life
    ensures life.After(Show, size) == life.(shown := life.shown + if life.open == 0 then 0 else 1)
    ensures life.After(Drop, size) == life.(open := if life.open == 0 then 0 else life.open - 1)
    ensures life.After(End, size) == life.(gone := true)
  {
  }

  /** `Ask` while the task is alive. */
  method AskTask(task: Task, textGranted: bool, questionGranted: bool, open: set<Question>, ghost life: Life)
    returns (left: set<Question>, crashed: bool)
    requires task.Valid() && task.alive && open == task.questions
    requires life == Life(task.textCached, false, |open|, life.shown, false)
    modifies task, task.textRc
    ensures !crashed ==> task.Valid() && task.alive && left == task.questions
    ensures if old(task.textCached) || task.textRc == null then task.textRc == old(task.textRc)
            else fresh(task.textRc) && fresh(task.textRc.mem)
    ensures life.After(Ask(textGranted, questionGranted), |EqPrint.Text(task.eq)| + 1)
         == Life(task.textCached, false, |left|, life.shown, crashed)
  {
    hide EqPrint.Text, Task.Valid, Life.After;
    task.CountersFit();
    ghost var size := |EqPrint.Text(task.eq)| + 1;
    var r := task.GetQuestion(textGranted, questionGranted);
    AskingCounts(life, textGranted, questionGranted, size, task.textCached, r.Asked?, r.Crashed?);
    left, crashed := open, r.Crashed?;
    if r.Asked? {
      left := left + {r.question};
      CardinalityOfMember(left, r.question);
      assert left - {r.question} == open;
    }
  }

  /** `Drop` when there is a question. */
  method DropOne(task: Task, open: set<Question>) returns (left: set<Question>)
    requires task.Valid() && open == task.questions && open != {}
    modifies task, task.textRc
    ensures task.Valid() && left == task.questions && |left| == |open| - 1
    ensures task.alive == old(task.alive) && task.textRc == old(task.textRc) && task.textCached == old(task.textCached)
  {
    hide Task.Valid;
    var q :| q in open;
    CardinalityOfMember(open, q);
    task.DestroyQuestion(q);
    left := open - {q};
  }

  /** One use. */
  method Turn(task: Task, u: Use, gone: bool, open: set<Question>, ghost life: Life)
    returns (left: set<Question>, texts: seq<string>, crashed: bool)
    requires task.Valid() && task.alive == !gone && open == task.questions
    requires life == Life(task.textCached, gone, |open|, life.shown, false)
    modifies task, task.textRc
    ensures !crashed ==> task.Valid() && task.alive == !(gone || u.End?) && left == task.questions
    ensures if old(task.textCached) || task.textRc == null then task.textRc == old(task.textRc)
            else fresh(task.textRc) && fresh(task.textRc.mem)
    ensures forall i :: 0 <= i < |texts| ==> texts[i] == EqPrint.Text(task.eq)
    ensures life.After(u, |EqPrint.Text(task.eq)| + 1)
         == Life(task.textCached, gone || u.End?, |left|, life.shown + |texts|, crashed)
  {
    hide EqPrint.Text, Task.Valid, Life.After;
    task.CountersFit();
    OtherCounts(life, |EqPrint.Text(task.eq)| + 1);
    left, texts, crashed := open, [], false;
    match u {
      case Ask(textGranted, questionGranted) =>
        if !gone {
          left, crashed := AskTask(task, textGranted, questionGranted, open, life);
        }
      case Show =>
        if open != {} {
          var q :| q in open;
          var text := task.QuestionText(q);
          texts := [text];
        }
      case Drop =>
        if open != {} { left := DropOne(task, open); }
      case End =>
        if !gone { task.Free(); }
    }
  }

  /** Any run of a task: it crashes exactly when that is specified, every text that is shown is that of the
      equation, whether or not the task still lives, and at the end the text was freed. */
  method Lifetime(eq: seq<Elem>, ghost tree: Expression, uses: seq<Use>)
    returns (task: Task, texts: seq<string>, crashed: bool)
    requires eq == FlattenExpression(tree)
    ensures var life := LifeOf(uses, |EqPrint.Text(eq)| + 1);
      crashed == life.crashed && |texts| == life.shown
    ensures forall i :: 0 <= i < |texts| ==> texts[i] == EqPrint.Text(eq)
    ensures !crashed ==> (task.textRc != null <==> LifeOf(uses, |EqPrint.Text(eq)| + 1).cached)
    ensures !crashed && task.textRc != null ==> task.textRc.freed
  {
    hide EqPrint.Text, LifeOf, Life.After;
    ghost var size := |EqPrint.Text(eq)| + 1;
    task := new Task(eq, tree);
    var gone, open: set<Question> := false, {};
    texts := [];
    ghost var life := Life(false, false, 0, 0, false);
    NotUsed(size);
    assert uses[..0] == [];
    for i := 0 to |uses|
      invariant fresh(task) && (task.textRc != null ==> fresh(task.textRc) && fresh(task.textRc.mem))
      invariant task.Valid() && task.alive == !gone && open == task.questions && task.eq == eq
      invariant forall j :: 0 <= j < |texts| ==> texts[j] == EqPrint.Text(eq)
      invariant life == LifeOf(uses[..i], size) == Life(task.textCached, gone, |open|, |texts|, false)
    {
      OneUse(uses, i, size);
      var shown;
      open, shown, crashed := Turn(task, uses[i], gone, open, life);
      texts := texts + shown;
      if crashed {
        StaysCrashed(uses, i + 1, size);
        return;
      }
      life := life.After(uses[i], size);
      gone := gone || uses[i].End?;
    }
    assert uses[..|uses|] == uses;
    task.CountersFit();
    Finish(task, gone, open);
    crashed := false;
  }

  lemma NotUsed(size: nat)
    ensures LifeOf([], size) == Life(false, false, 0, 0, false)
  {
  }

  lemma {:induction false} SentenceNotEmpty(e: Expression)
    ensures FlattenExpression(e) != []
  {
    EqSolve.ParseInvertsFlatten(e, []);
    assert FlattenExpression(e) + [] == FlattenExpression(e);
  }

  lemma CardinalityOfMember<T>(s: set<T>, x: T)
    requires x in s
    ensures |s| == |s - {x}| + 1
  {
  }
}
