/** The mediation logic of app_v01.py: each user's assistant ("MAL")
    rewrites a message for the group board without the sender's name,
    returns a feedback text that previews the post with the name, and a
    summary names who took part in the last five group messages. */
module GroupChat {
  import opened Text

  /** The fixed cast of users. */
  const Users: seq<string> := ["金", "黒瀬", "田所"]

  /** Longest group body kept before truncation. */
  const MaxBody: nat := 120

  const Ellipsis: char := '…'

  /** How many of the latest group messages the summary looks at. */
  const SummaryWindow: nat := 5

  /** The summary of an empty board. */
  const NoActivity: string := "（まだグループでのやり取りはありません）"

  const SummaryHead: string := "MAL総評：直近では "
  const SummaryTail: string := " が対話中です。"
  const NameSeparator: string := ", "

  const FeedbackHead: string := "MALよりフィードバック：\n・グループにはこう投稿しました → 「"
  const FeedbackTail: string := "」\n・トーン：フラット\n・補足したいことがあれば、もう少し具体例を書いてみても良いかもしれません。"

  /** One entry of `group_log`; `time` is an opaque clock reading. */
  datatype GroupMessage = GroupMessage(time: int, sender: string, text: string)

  /** One entry of a personal or feedback log. */
  datatype LogEntry = LogEntry(time: int, text: string)

  /** The pair `(group_msg, feedback)`. */
  datatype Rewrite = Rewrite(groupMsg: string, feedback: string)

  /** `f"{user}：{body}"`, the named post image shown in the feedback. */
  function Preview(user: string, body: string): (r: string)
    ensures |r| == |user| + 1 + |body|
    ensures r[..|user|] == user && r[|user|] == '：' && r[|user| + 1..] == body
  {
    user + "：" + body
  }

  predicate ContainsAt(s: string, part: string, i: nat) {
    i + |part| <= |s| && s[i..i + |part|] == part
  }

  /** `mal_rewrite_for_group`: the group body is the stripped text, cut to
      120 characters plus an ellipsis when longer; the feedback is the fixed
      head, the named preview of that body, then the fixed tail. `groupContext` is accepted and unused. */
  function RewriteForGroup(user: string, text: string, groupContext: seq<GroupMessage>): (r: Rewrite)
    ensures |r.groupMsg| <= MaxBody + 1
    ensures |Strip(text)| <= MaxBody ==> r.groupMsg == Strip(text)
    ensures |Strip(text)| > MaxBody ==> r.groupMsg == Strip(text)[..MaxBody] + [Ellipsis]
    ensures IsStripped(r.groupMsg)
    ensures r.groupMsg == [] <==> Strip(text) == []
    ensures |r.feedback| == |FeedbackHead| + |Preview(user, r.groupMsg)| + |FeedbackTail|
    ensures r.feedback[..|FeedbackHead|] == FeedbackHead
    ensures ContainsAt(r.feedback, Preview(user, r.groupMsg), |FeedbackHead|)
    ensures r.feedback[|FeedbackHead| + |Preview(user, r.groupMsg)|..] == FeedbackTail
  {
    var trimmed := Strip(text);
    var body := if |trimmed| > MaxBody then trimmed[..MaxBody] + [Ellipsis] else trimmed;
    var preview := Preview(user, body);
    var feedback := FeedbackHead + preview + FeedbackTail;
    assert feedback[..|FeedbackHead|] == FeedbackHead;
    assert feedback[|FeedbackHead|..|FeedbackHead| + |preview|] == preview;
    assert feedback[|FeedbackHead| + |preview|..] == FeedbackTail;
    Rewrite(body, feedback)
  }

  /** The group body does not depend on who sends it or on the board: the
      sender's name is never written into it. */
  lemma GroupBodyNameFree(u1: string, u2: string, text: string, c1: seq<GroupMessage>, c2: seq<GroupMessage>)
    ensures RewriteForGroup(u1, text, c1).groupMsg == RewriteForGroup(u2, text, c2).groupMsg
  {
  }

  /** Rewriting a group body again gives it back unchanged. */
  lemma RewriteIdempotent(user: string, text: string, c: seq<GroupMessage>,
                          user': string, c': seq<GroupMessage>)
    ensures var body := RewriteForGroup(user, text, c).groupMsg;
            RewriteForGroup(user', body, c').groupMsg == body
  {
    var body := RewriteForGroup(user, text, c).groupMsg;
    StripStripped(body);
    if |Strip(text)| > MaxBody {
      assert body[..MaxBody] + [Ellipsis] == body;
    }
  }

  /** Python's `<` on strings: lexicographic by code point, a proper prefix
      first. */
  predicate LexLess(a: string, b: string) {
    if a == [] then b != []
    else b != [] && (a[0] < b[0] || (a[0] == b[0] && LexLess(a[1..], b[1..])))
  }

  lemma {:induction false} LexLessIrreflexive(a: string)
    ensures !LexLess(a, a)
  {
    if a != [] {
      LexLessIrreflexive(a[1..]);
    }
  }

  lemma {:induction false} LexLessTransitive(a: string, b: string, c: string)
    requires LexLess(a, b) && LexLess(b, c)
    ensures LexLess(a, c)
  {
    if a != [] && a[0] == b[0] && b[0] == c[0] {
      LexLessTransitive(a[1..], b[1..], c[1..]);
    }
  }

  lemma {:induction false} LexLessTotal(a: string, b: string)
    requires a != b
    ensures LexLess(a, b) || LexLess(b, a)
  {
    if a != [] && b != [] && a[0] == b[0] {
      assert a == [a[0]] + a[1..] && b == [b[0]] + b[1..];
      LexLessTotal(a[1..], b[1..]);
    }
  }

  /** Sorted ascending with no duplicates. */
  predicate StrictlyAscending(s: seq<string>) {
    forall i, j :: 0 <= i < j < |s| ==> LexLess(s[i], s[j])
  }

  /** Adds `x` to a strictly ascending list, unless it is already there. */
  function InsertName(x: string, s: seq<string>): (r: seq<string>)
    requires StrictlyAscending(s)
    ensures StrictlyAscending(r)
    ensures forall y :: y in r <==> y == x || y in s
  {
    if s == [] then
      [x]
    else if x == s[0] then
      s
    else if LexLess(x, s[0]) then
      assert forall j :: 0 < j < |s| ==> LexLess(x, s[j]) by {
        forall j | 0 < j < |s| ensures LexLess(x, s[j]) {
          LexLessTransitive(x, s[0], s[j]);
        }
      }
      [x] + s
    else
      LexLessTotal(x, s[0]);
      var rest := InsertName(x, s[1..]);
      assert forall y :: y in rest ==> LexLess(s[0], y) by {
        forall y | y in rest ensures LexLess(s[0], y) {
          if y != x {
            var j :| 0 <= j < |s[1..]| && s[1..][j] == y;
            assert s[j + 1] == y;
          }
        }
      }
      assert forall y :: y in s ==> y == s[0] || y in s[1..];
      assert forall j :: 0 <= j < |rest| ==> rest[j] in rest;
      [s[0]] + rest
  }

  /** `sorted(set(names))`. */
  function SortedNames(names: seq<string>): (r: seq<string>)
    ensures StrictlyAscending(r)
    ensures forall y :: y in r <==> y in names
  {
    if names == [] then
      []
    else
      var front := names[..|names| - 1];
      assert names == front + [names[|names| - 1]];
      InsertName(names[|names| - 1], SortedNames(front))
  }

  /** A strictly ascending list is determined by its elements: the summary's
      name list is the unique sorted, duplicate-free listing of them. */
  lemma {:induction false} StrictlyAscendingUnique(a: seq<string>, b: seq<string>)
    requires StrictlyAscending(a) && StrictlyAscending(b)
    requires forall y :: y in a <==> y in b
    ensures a == b
  {
    assert a != [] ==> a[0] in a;
    assert b != [] ==> b[0] in b;
    if a != [] && b != [] {
      assert a[0] in b && b[0] in a;
      assert a[0] == b[0] by {
        var i :| 0 <= i < |b| && b[i] == a[0];
        var j :| 0 <= j < |a| && a[j] == b[0];
        LexLessIrreflexive(a[0]);
        LexLessIrreflexive(b[0]);
        assert a[0] == b[0] || (LexLess(b[0], a[0]) && LexLess(a[0], b[0]));
        if a[0] != b[0] {
          LexLessTransitive(a[0], b[0], a[0]);
        }
      }
      forall y ensures y in a[1..] <==> y in b[1..] {
        LexLessIrreflexive(a[0]);
        assert forall k :: 0 < k < |a| ==> a[k] != a[0];
        assert forall k :: 0 < k < |b| ==> b[k] != b[0];
        assert y in a <==> y == a[0] || y in a[1..];
        assert y in b <==> y == b[0] || y in b[1..];
      }
      StrictlyAscendingUnique(a[1..], b[1..]);
      assert a == [a[0]] + a[1..] && b == [b[0]] + b[1..];
    }
  }

  /** `logs[-5:]`. */
  function Recent(logs: seq<GroupMessage>): (r: seq<GroupMessage>)
    ensures |r| == if |logs| < SummaryWindow then |logs| else SummaryWindow
    ensures r == logs[|logs| - |r|..]
  {
    if |logs| <= SummaryWindow then logs else logs[|logs| - SummaryWindow..]
  }

  /** The sender of each message, in board order. */
  function Senders(msgs: seq<GroupMessage>): (names: seq<string>)
    ensures |names| == |msgs|
    ensures forall n :: n in names <==> exists m :: m in msgs && m.sender == n
  {
    var names := seq(|msgs|, i requires 0 <= i < |msgs| => msgs[i].sender);
    forall n ensures n in names <==> exists m :: m in msgs && m.sender == n {
      if n in names {
        var j :| 0 <= j < |names| && names[j] == n;
        assert msgs[j] in msgs && msgs[j].sender == n;
      }
      if exists m :: m in msgs && m.sender == n {
        var m :| m in msgs && m.sender == n;
        var j :| 0 <= j < |msgs| && msgs[j] == m;
        assert names[j] == n;
      }
    }
    names
  }

  /** `sorted({m["sender"] for m in logs[-5:]})`: ascending, duplicate-free,
      and exactly the senders of the last `min(5, len(logs))` messages. */
  function InvolvedUsers(logs: seq<GroupMessage>): (names: seq<string>)
    ensures StrictlyAscending(names)
    ensures forall n :: n in names <==> exists m :: m in Recent(logs) && m.sender == n
    ensures logs != [] ==> names != []
  {
    var senders := Senders(Recent(logs));
    assert logs != [] ==> senders[0] in senders;
    SortedNames(senders)
  }

  /** `", ".join(names)`. */
  function Join(sep: string, names: seq<string>): (r: string)
    ensures |r| == TotalLength(names) + (if names == [] then 0 else (|names| - 1) * |sep|)
    ensures names != [] ==> r[..|names[0]|] == names[0]
  {
    if names == [] then ""
    else if |names| == 1 then names[0]
    else
      var rest := Join(sep, names[1..]);
      assert (|names| - 1) * |sep| == (|names| - 2) * |sep| + |sep|;
      names[0] + sep + rest
  }

  /** Where the `i`-th name starts in `sep.join(names)`: after each earlier
      name and the separator behind it. */
  function Offset(sep: string, names: seq<string>, i: nat): nat
    requires i <= |names|
  {
    if i == 0 then 0 else |names[0]| + |sep| + Offset(sep, names[1..], i - 1)
  }

  /** Every name sits at its offset, and one separator right behind each
      name but the last; with the length, this fixes the joined string. */
  lemma JoinLayout(sep: string, names: seq<string>)
    ensures forall i :: 0 <= i < |names| ==> ContainsAt(Join(sep, names), names[i], Offset(sep, names, i))
    ensures forall i :: 0 <= i < |names| - 1 ==>
              ContainsAt(Join(sep, names), sep, Offset(sep, names, i) + |names[i]|)
  {
    forall i | 0 <= i < |names|
      ensures ContainsAt(Join(sep, names), names[i], Offset(sep, names, i))
    {
      JoinNameAt(sep, names, i);
    }
    forall i | 0 <= i < |names| - 1
      ensures ContainsAt(Join(sep, names), sep, Offset(sep, names, i) + |names[i]|)
    {
      JoinSepAt(sep, names, i);
    }
  }

  lemma {:induction false} JoinNameAt(sep: string, names: seq<string>, i: nat)
    requires i < |names|
    ensures ContainsAt(Join(sep, names), names[i], Offset(sep, names, i))
  {
    if i > 0 {
      var head, rest := names[0] + sep, Join(sep, names[1..]);
      assert Join(sep, names) == head + rest;
      JoinNameAt(sep, names[1..], i - 1);
      assert names[1..][i - 1] == names[i];
      ShiftedPart(head, rest, names[i], Offset(sep, names[1..], i - 1));
    }
  }

  lemma {:induction false} JoinSepAt(sep: string, names: seq<string>, i: nat)
    requires i < |names| - 1
    ensures ContainsAt(Join(sep, names), sep, Offset(sep, names, i) + |names[i]|)
  {
    var head, rest := names[0] + sep, Join(sep, names[1..]);
    assert Join(sep, names) == head + rest;
    if i == 0 {
      assert (head + rest)[|names[0]|..|names[0]| + |sep|] == sep;
    } else {
      JoinSepAt(sep, names[1..], i - 1);
      assert names[1..][i - 1] == names[i];
      ShiftedPart(head, rest, sep, Offset(sep, names[1..], i - 1) + |names[i]|);
    }
  }

  /** A part found in `rest` is found in `head + rest`, `|head|` further on. */
  lemma ShiftedPart(head: string, rest: string, part: string, i: nat)
    requires ContainsAt(rest, part, i)
    ensures ContainsAt(head + rest, part, |head| + i)
  {
    assert (head + rest)[|head| + i..|head| + i + |part|] == rest[i..i + |part|];
  }

  /** The total length of the names. */
  function TotalLength(names: seq<string>): nat {
    if names == [] then 0 else |names[0]| + TotalLength(names[1..])
  }

  /** `mal_group_summary` over the board `logs`: the fixed notice for an
      empty board, never produced for a non-empty one. */
  function GroupSummary(logs: seq<GroupMessage>): (r: string)
    ensures logs == [] ==> r == NoActivity
    ensures r == NoActivity ==> logs == []
  {
    if logs == [] then
      NoActivity
    else
      var r := SummaryHead + Join(NameSeparator, InvolvedUsers(logs)) + SummaryTail;
      assert r[0] == 'M' != NoActivity[0];
      r
  }

  /** A non-empty board's summary lists, between the fixed head and tail,
      any ascending duplicate-free listing of the last five senders:
      there is exactly one such listing. */
  lemma SummaryListsRecentSenders(logs: seq<GroupMessage>, names: seq<string>)
    requires logs != []
    requires StrictlyAscending(names)
    requires forall n :: n in names <==> exists m :: m in Recent(logs) && m.sender == n
    ensures GroupSummary(logs) == SummaryHead + Join(NameSeparator, names) + SummaryTail
  {
    StrictlyAscendingUnique(names, InvolvedUsers(logs));
  }
}
