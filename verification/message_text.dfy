/** The text of a bot answer (BotResponse.jsx, lines 21 and 37): a missing
    message becomes the empty string, and for the HTML view every line feed is
    replaced by a `<br>` tag. */
module MessageText {
  import opened Optional

  const BreakTag: string := "<br>"

  /** `message || ""`: an absent message reads as empty text. */
  function SafeMessage(message: Option<string>): (s: string)
    ensures message.None? ==> s == ""
    ensures message.Some? ==> s == message.value
  {
    match message
    case None => ""
    case Some(s) => s
  }

  /** What `replace(/\n/g, '<br>')` puts in place of one character. */
  function Expand(ch: char): string
  {
    if ch == '\n' then BreakTag else [ch]
  }

  /** `s.replace(/\n/g, '<br>')`: the global flag replaces every line feed. */
  function ReplaceNewlines(s: string): (r: string)
    ensures '\n' !in r
    ensures |r| >= |s|
    ensures '\n' !in s ==> r == s
  {
    if s == [] then [] else Expand(s[0]) + ReplaceNewlines(s[1..])
  }

  /** `formattedMessage`, the markup handed to the HTML view. */
  function FormattedMessage(message: Option<string>): (r: string)
    ensures '\n' !in r
    ensures message.None? ==> r == ""
    ensures message.Some? ==> |r| >= |message.value|
  {
    ReplaceNewlines(SafeMessage(message))
  }

  /** The replacement works character by character: it distributes over
      concatenation, so a line feed becomes `<br>` wherever it stands and
      every other character is kept as it is. */
  lemma {:induction false} ReplaceNewlinesConcat(a: string, b: string)
    ensures ReplaceNewlines(a + b) == ReplaceNewlines(a) + ReplaceNewlines(b)
  {
    if a != [] {
      assert (a + b)[0] == a[0] && (a + b)[1..] == a[1..] + b;
      ReplaceNewlinesConcat(a[1..], b);
      assert ReplaceNewlines(a + b) == Expand(a[0]) + (ReplaceNewlines(a[1..]) + ReplaceNewlines(b));
      assert ReplaceNewlines(a) == Expand(a[0]) + ReplaceNewlines(a[1..]);
    } else {
      assert a + b == b;
    }
  }

  lemma ReplaceNewlinesOneChar(ch: char)
    ensures ReplaceNewlines([ch]) == if ch == '\n' then "<br>" else [ch]
  {
  }

  // ---------------------------------------------------------------------------
  // Reading `<br>` back as a line feed: an inverse only for text without `<br>`
  // ---------------------------------------------------------------------------

  /** Whether a `<br>` tag starts at position `i` of `s`. */
  predicate BreakTagAt(s: string, i: nat)
  {
    i + 4 <= |s| && s[i] == '<' && s[i + 1] == 'b' && s[i + 2] == 'r' && s[i + 3] == '>'
  }

  /** Whether `<br>` occurs anywhere in `s`. */
  predicate HasBreakTag(s: string)
  {
    exists i: nat | i < |s| :: BreakTagAt(s, i)
  }

  /** Turns each `<br>`, read from the left, back into a line feed. */
  function RestoreNewlines(r: string): (s: string)
    ensures |s| <= |r|
  {
    if BreakTagAt(r, 0) then "\n" + RestoreNewlines(r[4..])
    else if r == [] then []
    else [r[0]] + RestoreNewlines(r[1..])
  }

  /** For text that holds no `<br>` of its own, the line-feed substitution
      loses nothing: reading the tags back gives the original message. */
  lemma {:induction false} RestoreAfterReplace(s: string)
    requires !HasBreakTag(s)
    ensures RestoreNewlines(ReplaceNewlines(s)) == s
  {
    if s != [] {
      assert !HasBreakTag(s[1..]) by {
        forall i: nat | BreakTagAt(s[1..], i) ensures false {
          assert BreakTagAt(s, i + 1);
        }
      }
      RestoreAfterReplace(s[1..]);
      var r := ReplaceNewlines(s);
      if s[0] == '\n' {
        assert r == BreakTag + ReplaceNewlines(s[1..]);
        assert BreakTagAt(r, 0) && r[4..] == ReplaceNewlines(s[1..]);
      } else {
        assert r == [s[0]] + ReplaceNewlines(s[1..]);
        assert !BreakTagAt(r, 0) by {
          if BreakTagAt(r, 0) {
            OpensWithBreakTag(s);
            assert false;
          }
        }
        assert r[1..] == ReplaceNewlines(s[1..]);
      }
    }
  }

  /** A `<br>` at the head of the output either came from a line feed or was
      already at the head of the input. */
  lemma OpensWithBreakTag(s: string)
    requires s != [] && s[0] != '\n'
    requires BreakTagAt(ReplaceNewlines(s), 0)
    ensures BreakTagAt(s, 0)
  {
    var r := ReplaceNewlines(s);
    assert r == [s[0]] + ReplaceNewlines(s[1..]);
    var r1 := ReplaceNewlines(s[1..]);
    assert r1[0] == 'b' && r1[1] == 'r' && r1[2] == '>';
    PlainPrefix(s[1..], "br>");
  }

  /** A prefix without `<` in the output is copied verbatim from the input,
      since every inserted tag begins with `<`. */
  lemma {:induction false} PlainPrefix(s: string, w: string)
    requires '<' !in w
    requires |ReplaceNewlines(s)| >= |w|
    requires forall k :: 0 <= k < |w| ==> ReplaceNewlines(s)[k] == w[k]
    ensures |s| >= |w| && forall k :: 0 <= k < |w| ==> s[k] == w[k]
  {
    if w != [] {
      var r := ReplaceNewlines(s);
      assert s != [];
      assert r == Expand(s[0]) + ReplaceNewlines(s[1..]);
      assert r[0] == w[0];
      assert s[0] != '\n';
      var r1 := ReplaceNewlines(s[1..]);
      assert forall k :: 0 <= k < |w| - 1 ==> r1[k] == r[k + 1];
      PlainPrefix(s[1..], w[1..]);
    }
  }
}
