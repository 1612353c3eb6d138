/** The tray icon of update_notifier_tray/cli.py: how a published update count
    turns into a tooltip, the icon's visibility and a desktop notification, and
    which clicks launch the distribution's update tool.  Qt and the notification
    library are reduced to a log of the effects the icon asks them for. */
module TrayIcon {
  import opened Text

  /** The title of every "updates available" notification. */
  const Title: string := "Updates available"

  /** The tooltip and notification body for a positive count. */
  function Message(count: int): (m: string)
    requires count > 0
    ensures m == "There is 1 update available" <==> count == 1
  {
    if count == 1 then "There is 1 update available"
    else "There are " + DecimalString(count) + " updates available"
  }

  /** Different counts never share a message, so the text always tells the
      user the exact count. */
  lemma MessageInjective(m: int, n: int)
    requires m > 0 && n > 0 && Message(m) == Message(n)
    ensures m == n
  {
    if m != 1 && n != 1 {
      var a, b := Message(m), Message(n);
      assert a[10..|a| - 18] == DecimalString(m);
      assert b[10..|b| - 18] == DecimalString(n);
      DecimalStringInjective(m, n);
    }
  }

  /** Qt's QSystemTrayIcon::ActivationReason. */
  datatype ActivationReason = Unknown | Context | DoubleClick | Trigger | MiddleClick

  /** A left click, a double click or a middle click launches the update tool;
      a right click (Context) only opens the menu. */
  predicate LaunchesUpdateGui(reason: ActivationReason) {
    reason == Trigger || reason == DoubleClick || reason == MiddleClick
  }

  /** What the icon asks of the UI toolkit, the notification service or the distribution. */
  datatype Effect =
    | SetToolTip(text: string)
    | Show
    | Hide
    | Notify(title: string, body: string)
    | StartUpdateGui
    | QuitApp

  /** The effects of one published count, given the count published before it. */
  function Reaction(previous: int, count: int): (r: seq<Effect>)
    ensures r == [] <==> count == previous
  {
    if count == previous then []
    else if count > 0 then [SetToolTip(Message(count)), Show, Notify(Title, Message(count))]
    else [Hide]
  }

  /** The effects of publishing `counts` in order, starting from `previous`. */
  function Reactions(previous: int, counts: seq<int>): seq<Effect>
    decreases |counts|
  {
    if counts == [] then [] else Reaction(previous, counts[0]) + Reactions(counts[0], counts[1..])
  }

  /** The count the icon remembers after `counts` have been published. */
  function LastCount(previous: int, counts: seq<int>): int {
    if counts == [] then previous else counts[|counts| - 1]
  }

  /** Whether the icon is shown after the effects `effects`, starting from `visible`. */
  function VisibleAfter(visible: bool, effects: seq<Effect>): bool
    decreases |effects|
  {
    if effects == [] then visible
    else VisibleAfter(if effects[0] == Show then true else if effects[0] == Hide then false else visible, effects[1..])
  }

  /** The icon's tooltip after the effects `effects`, starting from `toolTip`. */
  function ToolTipAfter(toolTip: string, effects: seq<Effect>): string
    decreases |effects|
  {
    if effects == [] then toolTip
    else ToolTipAfter(if effects[0].SetToolTip? then effects[0].text else toolTip, effects[1..])
  }

  /** The notification bodies among `effects`, in order. */
  function Notifications(effects: seq<Effect>): seq<string>
    decreases |effects|
  {
    if effects == [] then []
    else (if effects[0].Notify? then [effects[0].body] else []) + Notifications(effects[1..])
  }

  /** A constant sequence of n copies of c. */
  function Repeat(c: int, n: nat): (cs: seq<int>)
    ensures |cs| == n && forall i :: 0 <= i < n ==> cs[i] == c
  {
    seq(n, _ => c)
  }

  lemma {:induction false} NotificationsAppend(e1: seq<Effect>, e2: seq<Effect>)
    ensures Notifications(e1 + e2) == Notifications(e1) + Notifications(e2)
    decreases |e1|
  {
    if e1 != [] {
      NotificationsAppend(e1[1..], e2);
      assert (e1 + e2)[1..] == e1[1..] + e2;
    } else {
      assert e1 + e2 == e2;
    }
  }

  lemma {:induction false} VisibleAfterAppend(v: bool, e1: seq<Effect>, e2: seq<Effect>)
    ensures VisibleAfter(v, e1 + e2) == VisibleAfter(VisibleAfter(v, e1), e2)
    decreases |e1|
  {
    if e1 != [] {
      assert (e1 + e2)[1..] == e1[1..] + e2;
      VisibleAfterAppend(if e1[0] == Show then true else if e1[0] == Hide then false else v, e1[1..], e2);
    } else {
      assert e1 + e2 == e2;
    }
  }

  lemma {:induction false} ToolTipAfterAppend(t: string, e1: seq<Effect>, e2: seq<Effect>)
    ensures ToolTipAfter(t, e1 + e2) == ToolTipAfter(ToolTipAfter(t, e1), e2)
    decreases |e1|
  {
    if e1 != [] {
      assert (e1 + e2)[1..] == e1[1..] + e2;
      ToolTipAfterAppend(if e1[0].SetToolTip? then e1[0].text else t, e1[1..], e2);
    } else {
      assert e1 + e2 == e2;
    }
  }

  /** One reaction sets the tooltip to the message of a changed positive count
      and otherwise leaves it as it was. */
  lemma ReactionToolTip(previous: int, count: int, toolTip: string)
    ensures ToolTipAfter(toolTip, Reaction(previous, count)) ==
      if count != previous && count > 0 then Message(count) else toolTip
  {
    var r := Reaction(previous, count);
    if count != previous && count > 0 {
      var m := Message(count);
      assert r[1..][1..][1..] == [];
      assert ToolTipAfter(toolTip, r) == ToolTipAfter(m, r[1..]);
      assert ToolTipAfter(m, r[1..]) == ToolTipAfter(m, r[1..][1..]);
      assert ToolTipAfter(m, r[1..][1..]) == ToolTipAfter(m, r[1..][1..][1..]);
    } else if count != previous {
      assert r[1..] == [];
    }
  }

  /** Publishing one more count appends that count's reaction, judged against
      the count published just before it. */
  lemma {:induction false} ReactionsAppend(previous: int, counts: seq<int>, count: int)
    ensures Reactions(previous, counts + [count]) == Reactions(previous, counts) + Reaction(LastCount(previous, counts), count)
    decreases |counts|
  {
    if counts == [] {
      assert counts + [count] == [count];
    } else {
      assert (counts + [count])[1..] == counts[1..] + [count];
      ReactionsAppend(counts[0], counts[1..], count);
    }
  }

  /** Publishing the same count again has no effect at all. */
  lemma RepeatedCountIsQuiet(previous: int, counts: seq<int>, count: int)
    ensures Reactions(previous, counts + [count, count]) == Reactions(previous, counts + [count])
  {
    assert counts + [count, count] == (counts + [count]) + [count];
    ReactionsAppend(previous, counts + [count], count);
    assert LastCount(previous, counts + [count]) == count;
  }

  /** The icon starts out remembering 0, so a first published count of 0
      changes nothing: the reactions are those of the counts after it. */
  lemma FirstZeroIsQuiet(counts: seq<int>)
    ensures Reactions(0, [0] + counts) == Reactions(0, counts)
  {
    assert ([0] + counts)[1..] == counts;
  }

  /** A count published any number of times reacts at most once: a probe that
      keeps failing, or a count that stays the same, notifies only the first time. */
  lemma {:induction false} ConstantCountReactsOnce(previous: int, count: int, n: nat)
    ensures Reactions(previous, Repeat(count, n)) == if n == 0 then [] else Reaction(previous, count)
    decreases n
  {
    if n > 1 {
      ConstantCountReactsOnce(count, count, n - 1);
      assert Repeat(count, n)[1..] == Repeat(count, n - 1);
    } else if n == 1 {
      assert Repeat(count, 1)[1..] == [];
    }
  }

  /** One reaction leaves the icon shown exactly when the new count is positive. */
  lemma ReactionVisibility(previous: int, count: int, visible: bool)
    requires visible == (previous > 0)
    ensures VisibleAfter(visible, Reaction(previous, count)) == (count > 0)
  {
    var r := Reaction(previous, count);
    if count != previous && count > 0 {
      assert r[1..][1..][1..] == [];
      assert VisibleAfter(visible, r) == VisibleAfter(true, r[1..]);
      assert VisibleAfter(true, r[1..]) == VisibleAfter(true, r[1..][1..]);
    } else if count != previous {
      assert r[1..] == [];
    }
  }

  /** Whatever counts are published, the icon is shown exactly when the last
      count is positive (it starts hidden with a remembered count of 0). */
  lemma {:induction false} VisibilityFollowsLastCount(previous: int, visible: bool, counts: seq<int>)
    requires visible == (previous > 0)
    ensures VisibleAfter(visible, Reactions(previous, counts)) == (LastCount(previous, counts) > 0)
    decreases |counts|
  {
    if counts != [] {
      var r := Reaction(previous, counts[0]);
      assert Reactions(previous, counts) == r + Reactions(counts[0], counts[1..]);
      VisibleAfterAppend(visible, r, Reactions(counts[0], counts[1..]));
      ReactionVisibility(previous, counts[0], visible);
      VisibilityFollowsLastCount(counts[0], counts[0] > 0, counts[1..]);
      assert LastCount(previous, counts) == LastCount(counts[0], counts[1..]);
    }
  }

  /** The i-th of `counts` is positive, differs from the count before it, and
      its message is `body`. */
  predicate ChangedPositiveAt(previous: int, counts: seq<int>, i: int, body: string) {
    && 0 <= i < |counts|
    && counts[i] > 0
    && counts[i] != (if i == 0 then previous else counts[i - 1])
    && body == Message(counts[i])
  }

  /** Every notification ever fired has the fixed title and the message of a
      positive count that was published and differed from the one before it; in
      particular a count of 0 never notifies. */
  lemma {:induction false} NotificationsAreForChangedPositiveCounts(previous: int, counts: seq<int>)
    ensures forall e :: e in Reactions(previous, counts) && e.Notify? ==>
      e.title == Title && exists i :: ChangedPositiveAt(previous, counts, i, e.body)
    decreases |counts|
  {
    if counts != [] {
      NotificationsAreForChangedPositiveCounts(counts[0], counts[1..]);
      forall e | e in Reactions(previous, counts) && e.Notify?
        ensures e.title == Title && exists i :: ChangedPositiveAt(previous, counts, i, e.body)
      {
        if e in Reaction(previous, counts[0]) {
          assert ChangedPositiveAt(previous, counts, 0, e.body);
        } else {
          assert e in Reactions(counts[0], counts[1..]);
          var j :| ChangedPositiveAt(counts[0], counts[1..], j, e.body);
          assert ChangedPositiveAt(previous, counts, j + 1, e.body);
        }
      }
    }
  }

  /** The end-to-end scenario: 0, 3, 3, 0 hides nothing visible at first, shows
      and notifies once for 3, stays quiet for the repeated 3, and hides for 0. */
  lemma ScenarioZeroThreeThreeZero()
    ensures Reactions(0, [0, 3, 3, 0]) ==
      [SetToolTip("There are 3 updates available"), Show,
       Notify("Updates available", "There are 3 updates available"), Hide]
    ensures Notifications(Reactions(0, [0, 3, 3, 0])) == ["There are 3 updates available"]
  {
    assert DecimalString(3) == "3";
    assert Message(3) == "There are 3 updates available";
    assert [0] + [3, 3, 0] == [0, 3, 3, 0];
    FirstZeroIsQuiet([3, 3, 0]);
    assert [3, 0][1..] == [0] && [0][1..] == [];
    assert Reactions(3, [0]) == [Hide];
    assert Reactions(3, [3, 0]) == [Hide];
    assert [3, 3, 0][1..] == [3, 0];
    assert Reactions(0, [3, 3, 0]) == Reaction(0, 3) + [Hide];
    NotificationsAppend(Reaction(0, 3), [Hide]);
    NotificationOfChange(0, 3);
    assert Notifications([Hide]) == [];
  }

  /** A changed positive count fires exactly one notification, with its message. */
  lemma NotificationOfChange(previous: int, count: int)
    requires count > 0 && count != previous
    ensures Notifications(Reaction(previous, count)) == [Message(count)]
  {
    var m := Message(count);
    var r := [SetToolTip(m), Show, Notify(Title, m)];
    assert Reaction(previous, count) == r;
    assert r[3..] == [] && r[2..][1..] == r[3..] && r[1..][1..] == r[2..] && r[1..] == r[1..];
    assert Notifications(r[2..]) == [m];
    assert Notifications(r[1..]) == [m];
  }

  /** The end-to-end scenario: two failing probes publish 9999 twice and only
      the first one notifies. */
  lemma ScenarioTwoProbeErrors()
    ensures Notifications(Reactions(0, [9999, 9999])) == ["There are 9999 updates available"]
  {
    assert DecimalString(9999) == "9999" by {
      assert DecimalString(9) == "9";
      assert DecimalString(99) == "99";
      assert DecimalString(999) == "999";
    }
    assert Message(9999) == "There are 9999 updates available";
    assert Repeat(9999, 2) == [9999, 9999];
    ConstantCountReactsOnce(0, 9999, 2);
    NotificationOfChange(0, 9999);
  }

  /** _UpdateNotifierTrayIcon: the remembered count, the widget state the
      handlers change, and the log of effects they have asked for. */
  class UpdateNotifierTrayIcon {
    var previousCount: int
    var visible: bool
    var toolTip: string
    var effects: seq<Effect>

    /** The icon is visible exactly when the remembered count is positive, and
        then its tooltip describes that count. */
    ghost predicate Valid()
      reads this
    {
      && visible == (previousCount > 0)
      && (previousCount > 0 ==> toolTip == Message(previousCount))
    }

    /** A new icon remembers a count of 0 and is hidden. */
    constructor ()
      ensures Valid()
      ensures previousCount == 0 && !visible && toolTip == "" && effects == []
    {
      previousCount := 0;
      visible := false;
      toolTip := "";
      effects := [];
    }

    /** handle_activated: launch the update tool for the reasons that call for it. */
    method HandleActivated(reason: ActivationReason)
      modifies this`effects
      ensures effects == old(effects) + (if LaunchesUpdateGui(reason) then [StartUpdateGui] else [])
    {
      if reason == Trigger || reason == DoubleClick || reason == MiddleClick {
        effects := effects + [StartUpdateGui];
      }
    }

    /** handle_count_changed: remember the count; if it differs from the one
        remembered, show the icon with a tooltip and notify for a positive
        count, or hide the icon otherwise. */
    method HandleCountChanged(count: int)
      requires Valid()
      modifies this
      ensures Valid()
      ensures previousCount == count
      ensures effects == old(effects) + Reaction(old(previousCount), count)
      ensures visible == VisibleAfter(old(visible), Reaction(old(previousCount), count))
      ensures count == old(previousCount) ==> visible == old(visible) && toolTip == old(toolTip)
      ensures toolTip == if count != old(previousCount) && count > 0 then Message(count) else old(toolTip)
    {
      ReactionVisibility(previousCount, count, visible);
      var isSame := count == previousCount;
      previousCount := count;
      if isSame {
        return;
      }
      if count > 0 {
        var title := "Updates available";
        var message;
        if count == 1 {
          message := "There is 1 update available";
        } else {
          message := "There are " + DecimalString(count) + " updates available";
        }
        toolTip := message;
        visible := true;
        effects := effects + [SetToolTip(message), Show, Notify(title, message)];
      } else {
        visible := false;
        effects := effects + [Hide];
      }
    }

    /** The toolkit's quit, the last step of handle_exit. */
    method Quit()
      modifies this`effects
      ensures effects == old(effects) + [QuitApp]
    {
      effects := effects + [QuitApp];
    }
  }
}
