/**
 * How the webhook reads an inbound message body: lower-case it, test for
 * the `schedule` keyword, split on single spaces, take the second token as
 * the time and re-join the rest as the message; and the two reply texts.
 */
module Commands {

  import opened Wrappers
  import opened Tokens

  const Keyword := "schedule"
  const Space := ' '
  const UsageReply := "Use command:\n\nschedule 18:00 take your medicine"

  /** The body as the handler sees it: a missing or empty body is "", any other is lower-cased. */
  function Normalize(body: Option<string>): (text: string)
    ensures IsLower(text)
    ensures body.None? ==> text == ""
    ensures body.Some? ==> text == Lower(body.value)
  {
    if body.None? || body.value == "" then "" else Lower(body.value)
  }

  /** `parts[1]` of `text.split(" ")`: missing when the text has no space. */
  function ScheduleTime(text: string): (time: Option<string>)
    ensures time.None? <==> Space !in text
    ensures time.Some? ==> Space !in time.value
  {
    SplitCount(text, Space);
    var parts := Split(text, Space);
    if |parts| > 1 then Some(parts[1]) else None
  }

  /** `parts.slice(2).join(" ")` of `text.split(" ")`. */
  function ScheduleMessage(text: string): (message: string)
    ensures IsSuffix(message, text)
  {
    var parts := Split(text, Space);
    var tail := if |parts| < 2 then [] else parts[2..];
    if |parts| > 2 then JoinSplitSuffix(text, Space, 2); Join(tail, Space)
    else Join(tail, Space)
  }

  /** How a missing time prints inside a template literal. */
  function TimeText(time: Option<string>): string
  {
    match time
    case None => "undefined"
    case Some(t) => t
  }

  /** `t` occurs in `s` starting at index `i`. */
  predicate OccursAt(s: string, t: string, i: nat)
  {
    i + |t| <= |s| && s[i..i + |t|] == t
  }

  /** `t` occurs in `s` as a contiguous piece. */
  ghost predicate Contains(s: string, t: string)
  {
    exists i: nat :: OccursAt(s, t, i)
  }

  /** The confirmation sent after a job is stored: it quotes the message and names the time. */
  function Confirmation(message: string, time: Option<string>): (reply: string)
    ensures Contains(reply, message)
    ensures Contains(reply, TimeText(time))
  {
    var opening, middle := "Scheduled: \"", "\" at ";
    var reply := opening + message + middle + TimeText(time) + " every day.";
    assert OccursAt(reply, message, |opening|);
    assert OccursAt(reply, TimeText(time), |opening| + |message| + |middle|);
    reply
  }

  /**
   * With a first space at `i` and a second at `j`, the time is the text
   * strictly between them and the message is everything after `j`.
   */
  lemma TwoSpaces(text: string, i: nat, j: nat)
    requires i < j < |text|
    requires text[i] == Space && text[j] == Space
    requires Space !in text[..i] && Space !in text[i + 1..j]
    ensures ScheduleTime(text) == Some(text[i + 1..j])
    ensures ScheduleMessage(text) == text[j + 1..]
  {
    var u, w := text[i + 1..], text[j + 1..];
    assert u[..j - i - 1] == text[i + 1..j] && u[j - i..] == w;
    SplitAt(u, j - i - 1, Space);
    SplitAt(text, i, Space);
    FieldsOf(text, text[..i], text[i + 1..j], w);
  }

  /** Once the split is known to be a head, a time and the split of a rest, time and message are fixed. */
  lemma FieldsOf(text: string, head: string, time: string, rest: string)
    requires Split(text, Space) == [head] + ([time] + Split(rest, Space))
    ensures ScheduleTime(text) == Some(time)
    ensures ScheduleMessage(text) == rest
  {
    var parts := Split(text, Space);
    assert parts[1] == time;
    assert parts[2..] == Split(rest, Space);
    JoinSplit(rest, Space);
  }

  /** With exactly one space, at `i`, the time is everything after it and the message is empty. */
  lemma OneSpace(text: string, i: nat)
    requires i < |text| && text[i] == Space
    requires Space !in text[..i] && Space !in text[i + 1..]
    ensures ScheduleTime(text) == Some(text[i + 1..])
    ensures ScheduleMessage(text) == ""
  {
    SplitAt(text, i, Space);
    SplitWithoutSep(text[i + 1..], Space);
  }

  /** Without a space there is no time and the message is empty. */
  lemma NoSpace(text: string)
    requires Space !in text
    ensures ScheduleTime(text) == None
    ensures ScheduleMessage(text) == ""
  {
    SplitWithoutSep(text, Space);
  }

  /** Fewer than two spaces leave the message empty. */
  lemma FewSpacesEmptyMessage(text: string)
    requires multiset(text)[Space] < 2
    ensures ScheduleMessage(text) == ""
  {
    SplitCount(text, Space);
  }

  /** Time and message are taken from the lower-cased body, so neither holds a capital. */
  lemma ExtractedLower(text: string)
    requires IsLower(text)
    ensures ScheduleTime(text).Some? ==> IsLower(ScheduleTime(text).value)
    ensures IsLower(ScheduleMessage(text))
  {
    var parts := Split(text, Space);
    SplitKeepsLower(text, Space);
    var tail := if |parts| < 2 then [] else parts[2..];
    JoinKeepsLower(tail, Space);
  }

  /** The keyword test ignores case: "SCHEDULE", "Schedule" and "schedule" all select it. */
  lemma KeywordIgnoresCase(b: string)
    ensures StartsWith(Normalize(Some(b)), Keyword) <==>
            |b| >= |Keyword| && Lower(b[..|Keyword|]) == Keyword
  {
  }

  /** Two bodies that agree up to case are read identically. */
  lemma NormalizeIgnoresCase(a: string, b: string)
    requires Lower(a) == Lower(b)
    ensures Normalize(Some(a)) == Normalize(Some(b))
  {
  }

  /**
   * Round trip of a well-formed command: "schedule <time> <message>" with a
   * space-free time reads back as exactly that time and that message,
   * whatever spaces the message holds.
   */
  lemma WellFormedCommand(time: string, message: string)
    requires Space !in time
    ensures var text := Keyword + [Space] + time + [Space] + message;
            && StartsWith(text, Keyword)
            && ScheduleTime(text) == Some(time)
            && ScheduleMessage(text) == message
  {
    assert Space !in Keyword;
    ThreeFields(Keyword, time, message);
  }

  /** Three space-separated fields, the first two space-free, read back as time and message. */
  lemma ThreeFields(head: string, time: string, message: string)
    requires Space !in head && Space !in time
    ensures var text := head + [Space] + time + [Space] + message;
            && StartsWith(text, head)
            && ScheduleTime(text) == Some(time)
            && ScheduleMessage(text) == message
  {
    var rest := time + [Space] + message;
    var text := head + [Space] + rest;
    assert text == head + [Space] + time + [Space] + message;
    assert text[..|head|] == head;
    SplitPrefix(time, message, Space);
    SplitPrefix(head, rest, Space);
    assert Split(text, Space) == [head] + ([time] + Split(message, Space));
    FieldsOf(text, head, time, message);
  }

  /**
   * Nothing checks the command: "schedulefoo" also takes the schedule path,
   * with no time and an empty message, and so does a bare "schedule".
   */
  lemma UnvalidatedCommands()
    ensures StartsWith("schedulefoo", Keyword)
    ensures ScheduleTime("schedulefoo") == None && ScheduleMessage("schedulefoo") == ""
    ensures ScheduleTime("schedule") == None && ScheduleMessage("schedule") == ""
  {
  }
}
