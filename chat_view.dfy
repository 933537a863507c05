/**
 * The parts of the chat view (src/components/ChatView.tsx) that hold logic: loading a
 * transcript into the view's state with its default primary user, and grouping the messages
 * by day. The day of a message is given by `dayKey`, which stands for `formatMessageDay`
 * (a locale formatter, kept abstract).
 */
module ChatView {
  import opened JsStrings
  import opened Messages
  import opened ChatParser

  // ---------------------------------------------------------------------------
  // The view's state
  // ---------------------------------------------------------------------------

  /** The state the view keeps: the parsed messages, the participants and the user whose
      messages are drawn as the reader's own. */
  class ChatViewState {
    var messages: seq<ChatMessage>
    var users: seq<string>
    var primaryUser: string

    constructor ()
      ensures messages == [] && users == [] && primaryUser == ""
    {
      messages, users, primaryUser := [], [], "";
    }

    /** The effect that runs on a new transcript: parse it, derive the participants, and pick
        the first participant as the primary user when none is chosen yet. The participant
        picked is the least in code-point order. */
    method Load(chatText: string)
      modifies this
      ensures messages == ParseChat(chatText)
      ensures StrictlySorted(users) && forall u :: u in users <==> u in TrimmedSenders(messages)
      ensures primaryUser == if users != [] && old(primaryUser) == "" then users[0] else old(primaryUser)
      ensures users != [] && old(primaryUser) == "" ==>
                forall u :: u in users && u != primaryUser ==> LexLess(primaryUser, u)
    {
      var parsed := ParseWhatsAppChat(chatText);
      var chatUsers := ExtractUsers(parsed);
      messages := parsed;
      users := chatUsers;
      if |chatUsers| > 0 && primaryUser == "" {
        primaryUser := chatUsers[0];
      }
    }

    /** `handleUserChange`: the reader picks another primary user. */
    method SelectUser(value: string)
      modifies this
      ensures primaryUser == value
      ensures messages == old(messages) && users == old(users)
    {
      primaryUser := value;
    }
  }

  // ---------------------------------------------------------------------------
  // Grouping by day
  // ---------------------------------------------------------------------------

  /** A run of messages shown under one date divider. */
  datatype DateGroup = DateGroup(date: string, messages: seq<ChatMessage>)

  /** The messages of the groups, in order. */
  function Flatten(groups: seq<DateGroup>): seq<ChatMessage> {
    if groups == [] then [] else groups[0].messages + Flatten(groups[1..])
  }

  /** A group is non-empty and holds messages of its own day only. */
  predicate OneDay(g: DateGroup, dayKey: Timestamp -> string) {
    g.messages != [] && forall j :: 0 <= j < |g.messages| ==> dayKey(g.messages[j].datetime) == g.date
  }

  /** Every group is of one day. */
  predicate GroupsOfOneDay(groups: seq<DateGroup>, dayKey: Timestamp -> string) {
    forall k :: 0 <= k < |groups| ==> OneDay(groups[k], dayKey)
  }

  /** Neighbouring groups are of different days. */
  predicate NeighboursDiffer(groups: seq<DateGroup>) {
    forall k :: 0 < k < |groups| ==> groups[k - 1].date != groups[k].date
  }

  /** `groupMessagesByDate()`: the messages are walked in order, keeping the date of the open
      group; a message of another date closes the open group (when it holds anything) and
      opens a new one. The result splits the messages into maximal runs of one day. */
  method GroupMessagesByDate(messages: seq<ChatMessage>, dayKey: Timestamp -> string)
    returns (groups: seq<DateGroup>)
    ensures Flatten(groups) == messages
    ensures GroupsOfOneDay(groups, dayKey) && NeighboursDiffer(groups)
    ensures groups == [] <==> messages == []
  {
    groups := [];
    var currentDate := "";
    var currentGroup: seq<ChatMessage> := [];
    for i := 0 to |messages|
      invariant GroupedSoFar(messages, i, groups, currentDate, currentGroup, dayKey)
    {
      var message := messages[i];
      var messageDate := dayKey(message.datetime);
      if messageDate != currentDate {
        if |currentGroup| > 0 {
          CloseGroup(messages, i, groups, currentDate, currentGroup, dayKey);
          groups := groups + [DateGroup(currentDate, currentGroup)];
        } else {
          OpenFirstGroup(messages, i, groups, currentDate, dayKey);
        }
        currentDate := messageDate;
        currentGroup := [message];
      } else {
        ExtendGroup(messages, i, groups, currentDate, currentGroup, dayKey);
        currentGroup := currentGroup + [message];
      }
    }
    FinishGroups(messages, groups, currentDate, currentGroup, dayKey);
    if |currentGroup| > 0 {
      groups := groups + [DateGroup(currentDate, currentGroup)];
    }
  }

  /** The state of the walk after the first `i` messages: the closed groups and the open
      group together hold those messages; the closed groups are well formed; the open group
      is of its date, non-empty once a message has been seen, and of another date than the
      last closed group. */
  predicate GroupedSoFar(messages: seq<ChatMessage>, i: nat, groups: seq<DateGroup>,
                         currentDate: string, currentGroup: seq<ChatMessage>,
                         dayKey: Timestamp -> string)
  {
    && i <= |messages|
    && Flatten(groups) + currentGroup == messages[..i]
    && GroupsOfOneDay(groups, dayKey) && NeighboursDiffer(groups)
    && (forall j :: 0 <= j < |currentGroup| ==> dayKey(currentGroup[j].datetime) == currentDate)
    && (i > 0 ==> currentGroup != [])
    && (groups != [] ==> groups[|groups| - 1].date != currentDate)
  }

  /** A message of the open group's date joins it. */
  lemma ExtendGroup(messages: seq<ChatMessage>, i: nat, groups: seq<DateGroup>,
                    currentDate: string, currentGroup: seq<ChatMessage>, dayKey: Timestamp -> string)
    requires i < |messages| && GroupedSoFar(messages, i, groups, currentDate, currentGroup, dayKey)
    requires dayKey(messages[i].datetime) == currentDate
    ensures GroupedSoFar(messages, i + 1, groups, currentDate, currentGroup + [messages[i]], dayKey)
  {
    assert messages[..i + 1] == messages[..i] + [messages[i]];
  }

  /** A message of another date closes the open group and opens its own. */
  lemma CloseGroup(messages: seq<ChatMessage>, i: nat, groups: seq<DateGroup>,
                   currentDate: string, currentGroup: seq<ChatMessage>, dayKey: Timestamp -> string)
    requires i < |messages| && GroupedSoFar(messages, i, groups, currentDate, currentGroup, dayKey)
    requires dayKey(messages[i].datetime) != currentDate && currentGroup != []
    ensures GroupedSoFar(messages, i + 1, groups + [DateGroup(currentDate, currentGroup)],
                         dayKey(messages[i].datetime), [messages[i]], dayKey)
  {
    assert messages[..i + 1] == messages[..i] + [messages[i]];
    PushGroup(groups, DateGroup(currentDate, currentGroup), dayKey);
  }

  /** The first message opens the first group. */
  lemma OpenFirstGroup(messages: seq<ChatMessage>, i: nat, groups: seq<DateGroup>,
                       currentDate: string, dayKey: Timestamp -> string)
    requires i < |messages| && GroupedSoFar(messages, i, groups, currentDate, [], dayKey)
    ensures GroupedSoFar(messages, i + 1, groups, dayKey(messages[i].datetime), [messages[i]], dayKey)
  {
    FlattenEmpty(groups, dayKey);
    assert messages[..i + 1] == messages[..i] + [messages[i]];
  }

  /** At the end the open group, if any, is closed, and the groups cover the messages. */
  lemma FinishGroups(messages: seq<ChatMessage>, groups: seq<DateGroup>,
                     currentDate: string, currentGroup: seq<ChatMessage>, dayKey: Timestamp -> string)
    requires GroupedSoFar(messages, |messages|, groups, currentDate, currentGroup, dayKey)
    ensures var result := if |currentGroup| > 0 then groups + [DateGroup(currentDate, currentGroup)]
                          else groups;
            && Flatten(result) == messages
            && GroupsOfOneDay(result, dayKey) && NeighboursDiffer(result)
            && (result == [] <==> messages == [])
  {
    assert messages[..|messages|] == messages;
    if |currentGroup| > 0 {
      PushGroup(groups, DateGroup(currentDate, currentGroup), dayKey);
    }
    var result := if |currentGroup| > 0 then groups + [DateGroup(currentDate, currentGroup)]
                  else groups;
    FlattenEmpty(result, dayKey);
  }

  /** Closing a group of one day, of another day than the last group, keeps the grouping
      well formed and appends its messages. */
  lemma PushGroup(groups: seq<DateGroup>, g: DateGroup, dayKey: Timestamp -> string)
    requires GroupsOfOneDay(groups, dayKey) && NeighboursDiffer(groups) && OneDay(g, dayKey)
    requires groups != [] ==> groups[|groups| - 1].date != g.date
    ensures GroupsOfOneDay(groups + [g], dayKey) && NeighboursDiffer(groups + [g])
    ensures Flatten(groups + [g]) == Flatten(groups) + g.messages
  {
    FlattenPush(groups, g);
  }

  lemma {:induction false} FlattenPush(groups: seq<DateGroup>, g: DateGroup)
    ensures Flatten(groups + [g]) == Flatten(groups) + g.messages
  {
    if groups == [] {
      assert [g][1..] == [];
    } else {
      assert (groups + [g])[1..] == groups[1..] + [g];
      FlattenPush(groups[1..], g);
    }
  }

  /** The grouping is determined by the messages and the day key: two groupings that both
      flatten to the same messages, keep each group to one day and separate neighbouring
      groups by day are the same. */
  lemma {:induction false} GroupingUnique(g1: seq<DateGroup>, g2: seq<DateGroup>, dayKey: Timestamp -> string)
    requires Flatten(g1) == Flatten(g2)
    requires GroupsOfOneDay(g1, dayKey) && NeighboursDiffer(g1)
    requires GroupsOfOneDay(g2, dayKey) && NeighboursDiffer(g2)
    ensures g1 == g2
    decreases |g1|
  {
    FlattenEmpty(g1, dayKey);
    FlattenEmpty(g2, dayKey);
    if g1 != [] && g2 != [] {
      var f := Flatten(g1);
      var a, b := g1[0].messages, g2[0].messages;
      FirstGroup(g1, dayKey);
      FirstGroup(g2, dayKey);
      assert g1[0].date == dayKey(f[0].datetime) == g2[0].date;
      if |a| < |b| {
        assert dayKey(f[|a|].datetime) == g2[0].date;
        NextGroup(g1, dayKey);
        assert false;
      }
      if |b| < |a| {
        assert dayKey(f[|b|].datetime) == g1[0].date;
        NextGroup(g2, dayKey);
        assert false;
      }
      assert a == f[..|a|] && b == f[..|b|];
      assert Flatten(g1[1..]) == f[|a|..] == Flatten(g2[1..]);
      TailGrouped(g1, dayKey);
      TailGrouped(g2, dayKey);
      GroupingUnique(g1[1..], g2[1..], dayKey);
      assert g1 == [g1[0]] + g1[1..] && g2 == [g2[0]] + g2[1..];
    }
  }

  /** Only the empty grouping flattens to nothing. */
  lemma FlattenEmpty(g: seq<DateGroup>, dayKey: Timestamp -> string)
    requires GroupsOfOneDay(g, dayKey)
    ensures Flatten(g) == [] <==> g == []
  {
    if g != [] {
      assert OneDay(g[0], dayKey);
    }
  }

  /** The first group is a prefix of the messages, all of its day, the day of the first
      message. */
  lemma FirstGroup(g: seq<DateGroup>, dayKey: Timestamp -> string)
    requires g != [] && GroupsOfOneDay(g, dayKey)
    ensures var f, a := Flatten(g), g[0].messages;
            && 0 < |a| <= |f| && a == f[..|a|]
            && (forall j :: 0 <= j < |a| ==> dayKey(f[j].datetime) == g[0].date)
  {
    assert OneDay(g[0], dayKey);
    assert Flatten(g) == g[0].messages + Flatten(g[1..]);
  }

  /** The message after the first group, if any, is of another day. */
  lemma NextGroup(g: seq<DateGroup>, dayKey: Timestamp -> string)
    requires g != [] && GroupsOfOneDay(g, dayKey) && NeighboursDiffer(g)
    requires |Flatten(g)| > |g[0].messages|
    ensures dayKey(Flatten(g)[|g[0].messages|].datetime) != g[0].date
  {
    var f, n := Flatten(g), |g[0].messages|;
    assert f == g[0].messages + Flatten(g[1..]);
    assert Flatten(g[1..]) != [];
    assert g[1..] == [g[1]] + g[2..];
    assert Flatten(g[1..]) == g[1].messages + Flatten(g[2..]);
    assert OneDay(g[1], dayKey);
    assert f[n] == g[1].messages[0];
  }

  lemma TailGrouped(g: seq<DateGroup>, dayKey: Timestamp -> string)
    requires g != [] && GroupsOfOneDay(g, dayKey) && NeighboursDiffer(g)
    ensures GroupsOfOneDay(g[1..], dayKey) && NeighboursDiffer(g[1..])
  {
    assert forall k :: 0 <= k < |g[1..]| ==> g[1..][k] == g[k + 1];
  }
}
