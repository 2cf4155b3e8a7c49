/** Draft recall: the drafts older and newer than the one being edited, as a zipper. */
module Recall {
  import Seqs

  /** `push_stack`: non-empty text goes on top, unless it is there already. */
  function Push(stack: seq<string>, text: string): seq<string> {
    if text != [] && (stack == [] || stack[|stack| - 1] != text) then stack + [text] else stack
  }

  function Top(stack: seq<string>): string
    requires stack != []
  {
    stack[|stack| - 1]
  }

  function Pop(stack: seq<string>): seq<string>
    requires stack != []
  {
    stack[..|stack| - 1]
  }

  /** No empty draft and no draft twice in a row. */
  ghost predicate Tidy(stack: seq<string>) {
    && (forall i :: 0 <= i < |stack| ==> stack[i] != [])
    && (forall i :: 0 <= i < |stack| - 1 ==> stack[i] != stack[i + 1])
  }

  function Reverse(s: seq<string>): (r: seq<string>)
    ensures |r| == |s|
  {
    if s == [] then [] else [s[|s| - 1]] + Reverse(s[..|s| - 1])
  }

  /** Empties dropped and adjacent duplicates collapsed. */
  function Squash(s: seq<string>): seq<string> {
    if s == [] then [] else Push(Squash(s[..|s| - 1]), s[|s| - 1])
  }

  datatype Drafts = Drafts(ups: seq<string>, draft: string, downs: seq<string>) {
    function RecallUp(): Drafts
      requires ups != []
    {
      Drafts(Pop(ups), Top(ups), Push(downs, draft))
    }

    function RecallDown(): Drafts
      requires downs != []
    {
      Drafts(Push(ups, draft), Top(downs), Pop(downs))
    }

    /** What Clear does: the draft is stashed, the buffer emptied. */
    function Stash(): Drafts {
      Drafts(Push(ups, draft), [], downs)
    }

    /** All drafts from the oldest to the newest, the current one in between. */
    function Line(): seq<string> {
      Squash(ups + [draft] + Reverse(downs))
    }
  }

  lemma {:induction false} SquashCong(a: seq<string>, b: seq<string>, c: seq<string>)
    requires Squash(a) == Squash(b)
    ensures Squash(a + c) == Squash(b + c)
  {
    if c == [] {
      assert a + c == a && b + c == b;
    } else {
      SquashCong(a, b, c[..|c| - 1]);
      Seqs.ConcatInit(a, c);
      Seqs.ConcatInit(b, c);
    }
  }

  lemma SquashSnoc(a: seq<string>, x: string)
    ensures Squash(a + [x]) == Push(Squash(a), x)
  {
    assert (a + [x])[..|a|] == a;
  }

  /** Pushing is what squashing makes of appending. */
  lemma SquashPush(a: seq<string>, x: string)
    ensures Squash(Push(a, x)) == Squash(a + [x])
  {
    SquashSnoc(a, x);
    if a != [] && x != [] && Top(a) == x {
      SquashTop(Pop(a), x);
      Seqs.Split(a, |a| - 1);
      assert a[|a| - 1..] == [x];
    }
  }

  lemma SquashTop(a: seq<string>, x: string)
    ensures Push(Squash(a + [x]), x) == Squash(a + [x])
  {
    SquashSnoc(a, x);
  }

  lemma ReversePush(x: seq<string>, downs: seq<string>, draft: string)
    ensures Squash(x + Reverse(Push(downs, draft))) == Squash(x + [draft] + Reverse(downs))
  {
    var y := Reverse(downs);
    if draft == [] {
      SquashSnoc(x, draft);
      SquashCong(x, x + [draft], y);
    } else if downs != [] && Top(downs) == draft {
      // The draft is the newest of the newer ones already.
      var rest := Reverse(Pop(downs));
      SquashSnoc(x, draft);
      SquashSnoc(x + [draft], draft);
      SquashCong(x + [draft], x + [draft] + [draft], rest);
      Seqs.Assoc(x, [draft], rest);
      Seqs.Assoc(x + [draft], [draft], rest);
    } else {
      Seqs.TakeConcat(downs, [draft]);
      Seqs.Assoc(x, [draft], y);
    }
  }

  /** Recalling never loses or reorders a draft: the whole line of drafts is the same
      before and after going up, going down and clearing. */
  lemma LineKept(d: Drafts)
    ensures d.ups != [] ==> d.RecallUp().Line() == d.Line()
    ensures d.downs != [] ==> d.RecallDown().Line() == d.Line()
    ensures d.Stash().Line() == d.Line()
  {
    if d.ups != [] {
      ReversePush(Pop(d.ups) + [Top(d.ups)], d.downs, d.draft);
      assert d.ups == Pop(d.ups) + [Top(d.ups)];
    }
    SquashPush(d.ups, d.draft);
    if d.downs != [] {
      SquashCong(Push(d.ups, d.draft), d.ups + [d.draft], Reverse(d.downs));
      Seqs.Assoc(Push(d.ups, d.draft), [Top(d.downs)], Reverse(Pop(d.downs)));
    }
    var y := Reverse(d.downs);
    SquashSnoc(Push(d.ups, d.draft), []);
    SquashCong(Push(d.ups, d.draft) + [[]], d.ups + [d.draft], y);
  }

  /** The stacks stay tidy. */
  lemma PushTidy(stack: seq<string>, text: string)
    requires Tidy(stack)
    ensures Tidy(Push(stack, text))
  {}

  /** Going up and back down restores a non-empty draft and the older drafts; the newer
      ones are restored too, unless the draft was already the first of them. */
  lemma UpThenDown(d: Drafts)
    requires Tidy(d.ups) && d.ups != [] && d.draft != []
    ensures d.RecallUp().downs != []
    ensures var e := d.RecallUp().RecallDown();
      && e.draft == d.draft && e.ups == d.ups
      && e.downs == if d.downs != [] && Top(d.downs) == d.draft then Pop(d.downs) else d.downs
  {
    assert d.ups == Pop(d.ups) + [Top(d.ups)];
    assert |d.ups| > 1 ==> d.ups[|d.ups| - 2] != d.ups[|d.ups| - 2 + 1];
  }

  /** Going down and back up, the same the other way round. */
  lemma DownThenUp(d: Drafts)
    requires Tidy(d.downs) && d.downs != [] && d.draft != []
    ensures d.RecallDown().ups != []
    ensures var e := d.RecallDown().RecallUp();
      && e.draft == d.draft && e.downs == d.downs
      && e.ups == if d.ups != [] && Top(d.ups) == d.draft then Pop(d.ups) else d.ups
  {
    assert d.downs == Pop(d.downs) + [Top(d.downs)];
    assert |d.downs| > 1 ==> d.downs[|d.downs| - 2] != d.downs[|d.downs| - 2 + 1];
  }

  /** Going up after Clear brings the cleared draft back, and the newer ones are as they were. */
  lemma StashThenUp(d: Drafts)
    requires d.draft != []
    ensures d.Stash().draft == [] && d.Stash().ups != []
    ensures d.Stash().RecallUp()
         == Drafts(if d.ups != [] && Top(d.ups) == d.draft then Pop(d.ups) else d.ups, d.draft, d.downs)
  {
    Seqs.TakeConcat(d.ups, [d.draft]);
  }
}
