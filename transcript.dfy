/** The transcript builder of the `schedule meet` handler (app.py:124-143):
    the fetched messages arrive newest first, are put in chronological order,
    filtered, sanitised and written out one `name: content` line each. */
module TranscriptBuilder {
  import opened PyStr
  import opened Sanitize

  /** The three fields of a fetched message the handler reads:
      `author.display_name`, `author.name` and `content`. */
  datatype Message = Message(displayName: string, name: string, content: string)

  /** Longest stripped content that is still kept. */
  const MaxContentLength: nat := 500

  /** `message.author.display_name or message.author.name`. */
  function Username(m: Message): string {
    if m.displayName != [] then m.displayName else m.name
  }

  /** The content the filter looks at: the message text, stripped. */
  function Content(m: Message): string {
    Strip(m.content)
  }

  /** A message contributes a line iff its stripped content is non-empty and
      at most 500 characters long (measured before sanitising). */
  predicate Kept(m: Message) {
    0 < |Content(m)| <= MaxContentLength
  }

  /** The line a kept message contributes. Only the content is sanitised. */
  function Line(m: Message): string {
    Username(m) + ": " + SanitizeContent(Content(m))
  }

  /** The lines of the kept messages of `ms`, in the order of `ms`. */
  function Lines(ms: seq<Message>): (ls: seq<string>)
    ensures |ls| <= |ms|
  {
    if ms == [] then []
    else
      var init := Lines(ms[..|ms| - 1]);
      if Kept(ms[|ms| - 1]) then init + [Line(ms[|ms| - 1])] else init
  }

  /** Independent description of the filter: the positions of the kept
      messages of `ms`, strictly increasing, and exactly those positions. */
  function KeptIndices(ms: seq<Message>): (ix: seq<nat>)
    ensures forall k | 0 <= k < |ix| :: ix[k] < |ms|
    ensures forall k, l | 0 <= k < l < |ix| :: ix[k] < ix[l]
    ensures forall j | 0 <= j < |ms| :: j in ix <==> Kept(ms[j])
  {
    if ms == [] then []
    else
      var init := KeptIndices(ms[..|ms| - 1]);
      if Kept(ms[|ms| - 1]) then init + [|ms| - 1] else init
  }

  /** `sep.join(ls)`. */
  function Join(ls: seq<string>, sep: string): string {
    if |ls| == 0 then ""
    else if |ls| == 1 then ls[0]
    else Join(ls[..|ls| - 1], sep) + sep + ls[|ls| - 1]
  }

  /** What the loop accumulates: every line followed by a newline. */
  function Terminated(ls: seq<string>): string {
    if ls == [] then "" else Terminated(ls[..|ls| - 1]) + (ls[|ls| - 1] + "\n")
  }

  /** The sequence in reverse order. */
  function Reversed<T>(s: seq<T>): (r: seq<T>)
    ensures |r| == |s|
    ensures forall k | 0 <= k < |s| :: r[k] == s[|s| - 1 - k]
  {
    if s == [] then [] else Reversed(s[1..]) + [s[0]]
  }

  /** The transcript the handler builds from the fetched messages (newest
      first): the kept lines in chronological order, joined by newlines. */
  function Transcript(fetched: seq<Message>): string {
    Join(Lines(Reversed(fetched)), "\n")
  }

  // ---------------------------------------------------------------------
  // The imperative builder

  /** `messages.reverse()` (app.py:125). */
  method ReverseInPlace(a: array<Message>)
    modifies a
    ensures a[..] == Reversed(old(a[..]))
  {
    var lo, hi := 0, a.Length;
    while lo + 1 < hi
      invariant 0 <= lo <= hi <= a.Length && lo + hi == a.Length
      invariant forall k | 0 <= k < lo :: a[k] == old(a[a.Length - 1 - k]) && a[a.Length - 1 - k] == old(a[k])
      invariant forall k | lo <= k < hi :: a[k] == old(a[k])
    {
      a[lo], a[hi - 1] := a[hi - 1], a[lo];
      lo, hi := lo + 1, hi - 1;
    }
    forall k | 0 <= k < a.Length ensures a[k] == old(a[a.Length - 1 - k]) {
      if hi <= k && k < a.Length {
        assert a.Length - 1 - k < lo;
      }
    }
  }

  /** The loop of app.py:128-137 and the `rstrip('\n')` of app.py:139 over
      messages already in chronological order. */
  method FormatTranscript(messages: array<Message>) returns (text: string)
    ensures text == Join(Lines(messages[..]), "\n")
  {
    var acc := "";
    for i := 0 to messages.Length
      invariant acc == Terminated(Lines(messages[..i]))
    {
      var message := messages[i];
      var username := if message.displayName != "" then message.displayName else message.name;
      var content := Strip(message.content);
      assert messages[..i + 1] == messages[..][..i + 1] && messages[..i] == messages[..][..i];
      LinesStep(messages[..], i);
      if content != "" && |content| <= MaxContentLength {
        assert Kept(message);
        content := Defuse(Defuse(content, Everyone), Here);
        TerminatedStep(Lines(messages[..i]), Line(message));
        assert username + ": " + content == Line(message);
        acc := acc + (username + ": " + content + "\n");
        assert Lines(messages[..i + 1]) == Lines(messages[..i]) + [Line(message)];
      } else {
        assert !Kept(message);
        assert Lines(messages[..i + 1]) == Lines(messages[..i]);
      }
    }
    assert messages[..messages.Length] == messages[..];
    text := RStrip(acc, '\n');
    LinesEndInContent(messages[..]);
    StrippedTerminatedIsJoined(Lines(messages[..]));
  }

  lemma LinesStep(ms: seq<Message>, i: nat)
    requires i < |ms|
    ensures Lines(ms[..i + 1]) == Lines(ms[..i]) + (if Kept(ms[i]) then [Line(ms[i])] else [])
  {
    assert ms[..i + 1][..i] == ms[..i];
  }

  lemma TerminatedStep(ls: seq<string>, l: string)
    ensures Terminated(ls + [l]) == Terminated(ls) + (l + "\n")
  {
    assert (ls + [l])[..|ls|] == ls;
  }

  /** The whole builder: reverse in place, then format. */
  method BuildTranscript(messages: array<Message>) returns (text: string)
    modifies messages
    ensures messages[..] == Reversed(old(messages[..]))
    ensures text == Transcript(old(messages[..]))
  {
    ReverseInPlace(messages);
    text := FormatTranscript(messages);
  }

  // ---------------------------------------------------------------------
  // Properties of the transcript

  /** Lines ending in a visible character: each is non-empty and does not
      end in a newline. */
  predicate EndsVisibly(l: string) {
    l != [] && !IsSpace(l[|l| - 1])
  }

  /** A kept line ends with the last character of its stripped content. */
  lemma LineEndsInContent(m: Message)
    requires Kept(m)
    ensures EndsVisibly(Line(m))
    ensures Line(m)[|Line(m)| - 1] == Content(m)[|Content(m)| - 1]
  {
    StripSpec(m.content);
    SanitizeShape(Content(m));
  }

  lemma {:induction false} LinesEndInContent(ms: seq<Message>)
    ensures forall k | 0 <= k < |Lines(ms)| :: EndsVisibly(Lines(ms)[k])
  {
    if ms != [] {
      LinesEndInContent(ms[..|ms| - 1]);
      if Kept(ms[|ms| - 1]) {
        LineEndsInContent(ms[|ms| - 1]);
      }
    }
  }

  /** Order and filtering: the lines are exactly the lines of the kept
      messages, one each, in their original relative order. */
  lemma {:induction false} LinesFollowKeptIndices(ms: seq<Message>)
    ensures |Lines(ms)| == |KeptIndices(ms)|
    ensures forall k | 0 <= k < |Lines(ms)| :: Lines(ms)[k] == Line(ms[KeptIndices(ms)[k]])
  {
    if ms != [] {
      var init, last := ms[..|ms| - 1], ms[|ms| - 1];
      LinesFollowKeptIndices(init);
      var ls, ix := Lines(init), KeptIndices(init);
      var extra := if Kept(last) then [Line(last)] else [];
      assert Lines(ms) == ls + extra;
      assert KeptIndices(ms) == ix + (if Kept(last) then [|ms| - 1] else []);
      forall k | 0 <= k < |Lines(ms)| ensures Lines(ms)[k] == Line(ms[KeptIndices(ms)[k]]) {
        if k < |ls| {
          assert Lines(ms)[k] == ls[k];
          assert KeptIndices(ms)[k] == ix[k];
          assert ms[ix[k]] == init[ix[k]];
        }
      }
    }
  }

  /** A kept message's line starts with `display_name`, or `name` when the
      display name is empty; its stripped content has 1 to 500 characters
      with visible characters at both ends, and sanitising only lengthens it. */
  lemma LineShape(m: Message)
    requires Kept(m)
    ensures m.displayName != [] ==> Line(m)[..|m.displayName|] == m.displayName
    ensures m.displayName == [] ==> Line(m)[..|m.name|] == m.name
    ensures 0 < |Content(m)| <= MaxContentLength
    ensures |Content(m)| <= |SanitizeContent(Content(m))|
    ensures |Line(m)| == |Username(m)| + 2 + |SanitizeContent(Content(m))|
    ensures !IsSpace(Content(m)[0]) && !IsSpace(Content(m)[|Content(m)| - 1])
  {
    StripSpec(m.content);
    SanitizeShape(Content(m));
  }

  lemma {:induction false} JoinEndsWithLast(ls: seq<string>, sep: string)
    requires ls != []
    ensures |ls[|ls| - 1]| <= |Join(ls, sep)|
    ensures Join(ls, sep)[|Join(ls, sep)| - |ls[|ls| - 1]|..] == ls[|ls| - 1]
  {
  }

  /** Joining lines that are all non-empty gives "" only for no lines. */
  lemma JoinEmptyIff(ls: seq<string>, sep: string)
    requires forall k | 0 <= k < |ls| :: ls[k] != []
    ensures Join(ls, sep) == [] <==> ls == []
  {
    if ls != [] {
      JoinEndsWithLast(ls, sep);
    }
  }

  lemma {:induction false} TerminatedIsJoinedPlusNewline(ls: seq<string>)
    requires ls != []
    ensures Terminated(ls) == Join(ls, "\n") + "\n"
  {
    if |ls| > 1 {
      TerminatedIsJoinedPlusNewline(ls[..|ls| - 1]);
    } else {
      assert ls[..0] == [];
    }
  }

  /** Accumulating `line + "\n"` and then stripping trailing newlines gives
      the newline join, because no line ends in a newline: `rstrip` removes
      exactly the final separator. */
  lemma StrippedTerminatedIsJoined(ls: seq<string>)
    requires forall k | 0 <= k < |ls| :: EndsVisibly(ls[k])
    ensures RStrip(Terminated(ls), '\n') == Join(ls, "\n")
  {
    if ls != [] {
      TerminatedIsJoinedPlusNewline(ls);
      JoinEndsWithLast(ls, "\n");
      var j := Join(ls, "\n");
      var last := ls[|ls| - 1];
      assert j[|j| - 1] == last[|last| - 1] != '\n';
      assert (j + "\n")[..|j|] == j;
      assert TrailingCount(j, '\n') == 0;
      assert TrailingCount(j + "\n", '\n') == 1;
    }
  }

  /** No message of `ms` passes the filter. */
  predicate NoneKept(ms: seq<Message>) {
    forall j | 0 <= j < |ms| :: !Kept(ms[j])
  }

  /** No lines iff no message is kept. */
  lemma {:induction false} LinesEmptyIff(ms: seq<Message>)
    ensures Lines(ms) == [] <==> NoneKept(ms)
  {
    if ms != [] {
      var init := ms[..|ms| - 1];
      var last := ms[|ms| - 1];
      LinesEmptyIff(init);
      if Kept(last) {
        assert Lines(ms) == Lines(init) + [Line(last)];
        assert !NoneKept(ms);
      } else {
        assert Lines(ms) == Lines(init);
        if NoneKept(init) {
          forall j | 0 <= j < |ms| ensures !Kept(ms[j]) {
            if j < |init| {
              assert ms[j] == init[j];
            }
          }
        } else {
          var j :| 0 <= j < |init| && Kept(init[j]);
          assert ms[j] == init[j];
        }
      }
    }
  }

  /** Reversing the messages does not change whether any is kept. */
  lemma NoneKeptReversed(fetched: seq<Message>)
    ensures NoneKept(fetched) <==> NoneKept(Reversed(fetched))
  {
    var chrono := Reversed(fetched);
    if NoneKept(fetched) {
      forall k | 0 <= k < |chrono| ensures !Kept(chrono[k]) {
        assert chrono[k] == fetched[|fetched| - 1 - k];
      }
    } else {
      var j :| 0 <= j < |fetched| && Kept(fetched[j]);
      assert chrono[|fetched| - 1 - j] == fetched[j];
    }
  }

  /** The transcript is empty iff no fetched message is kept. */
  lemma TranscriptEmptyIff(fetched: seq<Message>)
    ensures Transcript(fetched) == [] <==> NoneKept(fetched)
  {
    var chrono := Reversed(fetched);
    LinesEndInContent(chrono);
    JoinEmptyIff(Lines(chrono), "\n");
    LinesEmptyIff(chrono);
    NoneKeptReversed(fetched);
  }

  /** Chronological order: the k-th transcript line is the line of a kept
      message, and later lines come from earlier positions of the fetched
      list, which is newest first, so from newer messages. */
  lemma TranscriptLinesInOrder(fetched: seq<Message>)
    ensures |Lines(Reversed(fetched))| == |KeptIndices(Reversed(fetched))| <= |fetched|
    ensures forall k | 0 <= k < |Lines(Reversed(fetched))| ::
      var j := |fetched| - 1 - KeptIndices(Reversed(fetched))[k];
      0 <= j < |fetched| && Kept(fetched[j]) && Lines(Reversed(fetched))[k] == Line(fetched[j])
    ensures forall k, l | 0 <= k < l < |Lines(Reversed(fetched))| ::
      |fetched| - 1 - KeptIndices(Reversed(fetched))[l] < |fetched| - 1 - KeptIndices(Reversed(fetched))[k]
  {
    LinesFollowKeptIndices(Reversed(fetched));
  }

  /** Every kept fetched message, and only those, has its position among the
      ones the transcript lines come from. */
  lemma KeptMessagesAppear(fetched: seq<Message>)
    ensures forall j | 0 <= j < |fetched| ::
      Kept(fetched[j]) <==> |fetched| - 1 - j in KeptIndices(Reversed(fetched))
  {
    var chrono := Reversed(fetched);
    forall j | 0 <= j < |fetched| ensures Kept(fetched[j]) <==> |fetched| - 1 - j in KeptIndices(chrono) {
      assert chrono[|fetched| - 1 - j] == fetched[j];
    }
  }

  // ---------------------------------------------------------------------
  // Mass mentions

  predicate MentionFree(s: string) {
    !Contains(s, Mention(Everyone)) && !Contains(s, Mention(Here))
  }

  lemma LineMentionFree(m: Message)
    requires MentionFree(Username(m))
    ensures MentionFree(Line(m))
  {
    var c := SanitizeContent(Content(m));
    assert ": " + c == [':'] + ([' '] + c);
    assert Line(m) == Username(m) + ([':'] + ([' '] + c));
    NoMentionCons(' ', c, Everyone);
    NoMentionCons(':', [' '] + c, Everyone);
    NoMentionConcat(Username(m), [':'] + ([' '] + c), Everyone);
    NoMentionCons(' ', c, Here);
    NoMentionCons(':', [' '] + c, Here);
    NoMentionConcat(Username(m), [':'] + ([' '] + c), Here);
  }

  lemma {:induction false} JoinMentionFree(ls: seq<string>)
    requires forall k | 0 <= k < |ls| :: MentionFree(ls[k])
    ensures MentionFree(Join(ls, "\n"))
  {
    if |ls| > 1 {
      var init := ls[..|ls| - 1];
      var last := ls[|ls| - 1];
      JoinMentionFree(init);
      NoMentionCons('\n', last, Everyone);
      NoMentionCons('\n', last, Here);
      assert Join(ls, "\n") == Join(init, "\n") + ("\n" + last);
      NoMentionConcat(Join(init, "\n"), "\n" + last, Everyone);
      NoMentionConcat(Join(init, "\n"), "\n" + last, Here);
    }
  }

  /** Content is always defused; so when no author name holds a raw token,
      the whole transcript holds none. */
  lemma TranscriptMentionFree(fetched: seq<Message>)
    requires forall j | 0 <= j < |fetched| :: MentionFree(Username(fetched[j]))
    ensures MentionFree(Transcript(fetched))
  {
    var chrono := Reversed(fetched);
    LinesFollowKeptIndices(chrono);
    forall k | 0 <= k < |Lines(chrono)| ensures MentionFree(Lines(chrono)[k]) {
      var j := KeptIndices(chrono)[k];
      assert chrono[j] == fetched[|fetched| - 1 - j];
      LineMentionFree(chrono[j]);
    }
    JoinMentionFree(Lines(chrono));
  }

  /** Author names are not sanitised: a display name `@everyone` reaches the
      transcript unchanged. */
  lemma UsernameIsNotSanitised()
    ensures Contains(Transcript([Message("@everyone", "alice", "hi")]), Mention(Everyone))
  {
    var m := Message("@everyone", "alice", "hi");
    PlainLine(m);
    assert Reversed([m]) == [m];
    assert Lines([m]) == [Line(m)] by {
      assert [m][..0] == [];
    }
    assert Transcript([m]) == "@everyone: hi";
    assert OccursAt(Transcript([m]), Mention(Everyone), 0);
  }

  lemma PlainLine(m: Message)
    requires m == Message("@everyone", "alice", "hi")
    ensures Kept(m) && Line(m) == "@everyone: hi"
  {
    assert LeadingSpaces("hi") == 0;
    assert TrailingSpaces("hi") == 0;
    assert Content(m) == "hi";
    assert Defuse("hi", Everyone) == "hi";
    assert Defuse("hi", Here) == "hi";
  }

  /** The 500-character bound is checked before sanitising, so a kept
      message's sanitised content can be longer: 495 letters and `@here` is
      500 characters, is kept, and becomes 501. */
  lemma SanitisedContentMayExceedLimit()
    ensures var m := Message("", "alice", Padding(MaxContentLength - 5) + Mention(Here));
      Kept(m) && |SanitizeContent(Content(m))| == MaxContentLength + 1
  {
    var c := Padding(MaxContentLength - 5) + Mention(Here);
    assert c[0] == 'a' && !IsSpace(c[0]);
    assert LeadingSpaces(c) == 0;
    assert c[|c| - 1] == 'e';
    assert TrailingSpaces(c) == 0;
    assert Strip(c) == c;
    SanitizePaddedHere(MaxContentLength - 5);
  }
}
