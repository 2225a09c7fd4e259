/** The showFrom/showTo window shared by announcements and tips
    (src/news/news.ts:79-83, src/common/tips.ts:27-29). */
module Visibility {
  import opened Interfaces

  /** Optional inclusive bounds, as epoch milliseconds. */
  datatype Window = Window(showFrom: Option<int>, showTo: Option<int>)

  /** `(showFrom == null || showFrom <= now) && (showTo == null || showTo >= now)` */
  predicate Shows(w: Window, now: int) {
    (w.showFrom.None? || w.showFrom.value <= now) && (w.showTo.None? || w.showTo.value >= now)
  }

  datatype Tip = Tip(message: string, window: Window)

  /** `items.filter(t => Shows(t's window, now))` */
  function Visible<T>(items: seq<T>, win: T -> Window, now: int): (r: seq<T>)
    ensures |r| <= |items|
    decreases |items|
  {
    if items == [] then []
    else (if Shows(win(items[0]), now) then [items[0]] else []) + Visible(items[1..], win, now)
  }

  /** `tips.map(t => t.message)` */
  function Messages(tips: seq<Tip>): (r: seq<string>)
    ensures |r| == |tips|
    ensures forall i :: 0 <= i < |tips| ==> r[i] == tips[i].message
  {
    seq(|tips|, i requires 0 <= i < |tips| => tips[i].message)
  }

  /** `a` occurs in `b` in order, possibly with gaps. */
  predicate IsSubsequence<T(==)>(a: seq<T>, b: seq<T>)
    decreases |b|
  {
    if a == [] then true
    else if b == [] then false
    else if a[0] == b[0] then IsSubsequence(a[1..], b[1..])
    else IsSubsequence(a, b[1..])
  }

  /** An item is returned exactly when it is listed and its window contains now. */
  lemma {:induction false} VisibleExactly<T>(items: seq<T>, win: T -> Window, now: int, x: T)
    ensures x in Visible(items, win, now) <==> x in items && Shows(win(x), now)
    decreases |items|
  {
    if items != [] {
      VisibleExactly(items[1..], win, now, x);
      assert items == [items[0]] + items[1..];
    }
  }

  /** Filtering distributes over concatenation: the output keeps input order. */
  lemma {:induction false} VisibleAppend<T>(a: seq<T>, b: seq<T>, win: T -> Window, now: int)
    ensures Visible(a + b, win, now) == Visible(a, win, now) + Visible(b, win, now)
    decreases |a|
  {
    if a == [] {
      assert a + b == b;
    } else {
      var head := if Shows(win(a[0]), now) then [a[0]] else [];
      assert (a + b)[0] == a[0];
      assert (a + b)[1..] == a[1..] + b;
      VisibleAppend(a[1..], b, win, now);
      calc {
        Visible(a + b, win, now);
        head + Visible(a[1..] + b, win, now);
        head + (Visible(a[1..], win, now) + Visible(b, win, now));
        (head + Visible(a[1..], win, now)) + Visible(b, win, now);
      }
    }
  }

  /** The output is a subsequence of the input. */
  lemma {:induction false} VisibleIsSubsequence<T>(items: seq<T>, win: T -> Window, now: int)
    ensures IsSubsequence(Visible(items, win, now), items)
    decreases |items|
  {
    if items != [] {
      var rest := Visible(items[1..], win, now);
      VisibleIsSubsequence(items[1..], win, now);
      if Shows(win(items[0]), now) {
        assert Visible(items, win, now) == [items[0]] + rest;
      } else {
        assert Visible(items, win, now) == rest;
        SubsequenceOfTail(rest, items);
      }
    }
  }

  /** A subsequence of the tail is a subsequence of the whole. */
  lemma {:induction false} SubsequenceOfTail<T>(a: seq<T>, b: seq<T>)
    requires b != [] && IsSubsequence(a, b[1..])
    ensures IsSubsequence(a, b)
    decreases |b|, |a|
  {
    if a != [] && a[0] == b[0] {
      // IsSubsequence(a, b) reduces to IsSubsequence(a[1..], b[1..]), which
      // follows from IsSubsequence(a, b[1..]) by dropping a's head.
      SubsequenceDropHead(a, b[1..]);
    }
  }

  /** Dropping the first element keeps a subsequence a subsequence. */
  lemma {:induction false} SubsequenceDropHead<T>(a: seq<T>, b: seq<T>)
    requires a != [] && IsSubsequence(a, b)
    ensures IsSubsequence(a[1..], b)
    decreases |b|, |a|
  {
    assert b != [];
    if a[0] == b[0] {
      if a[1..] != [] {
        SubsequenceOfTail(a[1..], b);
      }
    } else {
      SubsequenceDropHead(a, b[1..]);
      if a[1..] != [] {
        SubsequenceOfTail(a[1..], b);
      }
    }
  }

  /** An item with neither bound is always shown. */
  lemma UnboundedAlwaysVisible<T>(items: seq<T>, win: T -> Window, now: int, x: T)
    requires x in items && win(x) == Window(None, None)
    ensures x in Visible(items, win, now)
  {
    VisibleExactly(items, win, now, x);
  }

  /** Mapping to messages keeps the subsequence relation. */
  lemma {:induction false} MessagesKeepSubsequence(a: seq<Tip>, b: seq<Tip>)
    requires IsSubsequence(a, b)
    ensures IsSubsequence(Messages(a), Messages(b))
    decreases |b|
  {
    if a != [] {
      assert Messages(a)[1..] == Messages(a[1..]);
      assert Messages(b)[1..] == Messages(b[1..]);
      if a[0] == b[0] {
        MessagesKeepSubsequence(a[1..], b[1..]);
      } else {
        MessagesKeepSubsequence(a, b[1..]);
        SubsequenceOfTail(Messages(a), Messages(b));
      }
    }
  }

  /** Which items are shown at now: exactly the listed ones whose window
      contains now, in list order. */
  lemma VisibleMembers<T>(items: seq<T>, win: T -> Window, now: int)
    ensures forall x :: x in Visible(items, win, now) <==> x in items && Shows(win(x), now)
    ensures IsSubsequence(Visible(items, win, now), items)
  {
    forall x {
      VisibleExactly(items, win, now, x);
    }
    VisibleIsSubsequence(items, win, now);
  }

  /** The messages of the tips shown at now, in list order. */
  function VisibleMessages(tips: seq<Tip>, now: int): (r: seq<string>)
    ensures forall t :: t in tips && Shows(t.window, now) ==> t.message in r
    ensures forall m :: m in r ==> exists t :: t in tips && Shows(t.window, now) && t.message == m
    ensures IsSubsequence(r, Messages(tips))
  {
    var shown := Visible(tips, (t: Tip) => t.window, now);
    VisibleMembers(tips, (t: Tip) => t.window, now);
    MessagesKeepSubsequence(shown, tips);
    Messages(shown)
  }
}
