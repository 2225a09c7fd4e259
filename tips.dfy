/** The tip of the day (src/common/tips.ts). Math.random() is the parameter
    `draw`, a real in [0, 1). */
module Tips {
  import opened Interfaces
  import opened Visibility

  const SEP_30: int := 1727654400000

  const TIPS: seq<Tip> := [
    Tip("Would you like to give some feedback on the game? Or simply chat with others who are also interested in Tenbin? Join our Discord server! Link is on the home page.", Window(None, None)),
    Tip("Remember you can always review the rules by clicking the button on the top-right corner of the screen.", Window(None, None)),
    Tip("A new rule will be added when a player is eliminated. You can always review the new rules by clicking the rules button after this happens.", Window(None, None)),
    Tip("You can change your number anytime before the time runs out.", Window(None, None)),
    Tip("We recently reached 500 downloads on Google Play, thanks for all your support!", Window(None, Some(SEP_30)))
  ]

  /** The messages of the tips whose window contains now, in list order. */
  function EligibleTips(now: int): (r: seq<string>)
    ensures forall t :: t in TIPS && Shows(t.window, now) ==> t.message in r
    ensures forall m :: m in r ==> exists t :: t in TIPS && Shows(t.window, now) && t.message == m
    ensures IsSubsequence(r, Messages(TIPS))
  {
    VisibleMessages(TIPS, now)
  }

  /** getTip: "" when nothing is eligible, otherwise the eligible message at
      index floor(draw * count). */
  function GetTip(now: int, draw: real): (r: string)
    requires 0.0 <= draw < 1.0
    ensures r == "" <==> EligibleTips(now) == []
    ensures r != "" ==> r in EligibleTips(now)
    ensures r != "" ==> exists t :: t in TIPS && t.message == r
  {
    var eligible := EligibleTips(now);
    if |eligible| == 0 then ""
    else
      var k := PickIndex(draw, |eligible|);
      assert eligible[k] in eligible;
      assert eligible[k] != "" by { NoEmptyTip(eligible[k], now); }
      eligible[k]
  }

  /** `Math.floor(draw * n)` is an index of a list of length n. */
  function PickIndex(draw: real, n: nat): (k: nat)
    requires 0.0 <= draw < 1.0 && n > 0
    ensures k < n
    ensures k as real <= draw * n as real < k as real + 1.0
  {
    assert draw * n as real < n as real;
    (draw * n as real).Floor
  }

  /** Every eligible tip can be chosen: the draw k/n picks the k-th one. */
  lemma EveryEligibleTipReachable(now: int, k: nat)
    requires k < |EligibleTips(now)|
    ensures var n := |EligibleTips(now)|;
            0.0 <= k as real / n as real < 1.0 &&
            GetTip(now, k as real / n as real) == EligibleTips(now)[k]
  {
    var n := |EligibleTips(now)|;
    PickIndexInverse(k, n);
  }

  /** The draw k/n lands on index k. */
  lemma PickIndexInverse(k: nat, n: nat)
    requires k < n
    ensures 0.0 <= k as real / n as real < 1.0
    ensures PickIndex(k as real / n as real, n) == k
  {
    var draw := k as real / n as real;
    assert draw * n as real == k as real;
    var j := PickIndex(draw, n);
    assert j as real <= k as real < j as real + 1.0;
  }

  /** Every tip has a message. */
  lemma NoEmptyTip(m: string, now: int)
    requires m in EligibleTips(now)
    ensures m != ""
  {
    var t :| t in TIPS && Shows(t.window, now) && t.message == m;
    TipsHaveMessages(t);
  }

  lemma TipsHaveMessages(t: Tip)
    requires t in TIPS
    ensures t.message != ""
  {
    var i :| 0 <= i < |TIPS| && TIPS[i] == t;
    assert |TIPS[i].message| > 50;
  }
}
