/** The record extractor of the AI chat panel: the regular expression
    /Updated form data:\s*(\{[\s\S]*?\})/ as a left-to-right scan, the record
    it hands to JSON.parse, the display text left after the first match is
    removed, and the per-message open/closed map of the record viewer. */
module AiMode {
  import opened Text
  import opened JsValues

  const Marker := "Updated form data:"

  /** One match of the pattern: the marker begins at start, the block
      text[open..end] runs from its '{' to the first '}' after it. */
  datatype Match = Match(start: nat, open: nat, end: nat)

  predicate MarkerAt(text: string, i: nat) {
    i + |Marker| <= |text| && text[i..i + |Marker|] == Marker
  }

  /** What the pattern demands of a match starting at m.start: the marker,
      white space only (\s*) up to a '{', then the shortest run ([\s\S]*?)
      up to a '}'. */
  predicate IsMatch(text: string, m: Match) {
    && MarkerAt(text, m.start)
    && m.start + |Marker| <= m.open && m.open + 2 <= m.end <= |text|
    && (forall k :: m.start + |Marker| <= k < m.open ==> IsJsWhitespace(text[k]))
    && text[m.open] == '{'
    && text[m.end - 1] == '}'
    && (forall k :: m.open < k < m.end - 1 ==> text[k] != '}')
  }

  /** The match String.prototype.match reports: it starts no later than any
      other match. */
  ghost predicate IsLeftmostMatch(text: string, m: Match) {
    IsMatch(text, m) && forall m' :: IsMatch(text, m') ==> m.start <= m'.start
  }

  /** The captured group, the text handed to JSON.parse. */
  function Block(text: string, m: Match): string
    requires m.open <= m.end <= |text|
  {
    text[m.open..m.end]
  }

  // ---------- the scan ----------

  /** The first position at or after p holding c. */
  function FindChar(text: string, c: char, p: nat): (r: Option<nat>)
    requires p <= |text|
    ensures r.Some? ==> p <= r.value < |text| && text[r.value] == c
    ensures r.Some? ==> forall k :: p <= k < r.value ==> text[k] != c
    ensures r.None? ==> forall k :: p <= k < |text| ==> text[k] != c
    decreases |text| - p
  {
    if p == |text| then None
    else if text[p] == c then Some(p)
    else FindChar(text, c, p + 1)
  }

  /** The regex engine's attempt at one start position. Backtracking cannot
      help: \s* must stop at the first character that is not white space, and
      the lazy [\s\S]*? at the first '}'. */
  function MatchAt(text: string, i: nat): (r: Option<Match>)
    requires i <= |text|
    ensures r.Some? ==> IsMatch(text, r.value) && r.value.start == i
  {
    if !MarkerAt(text, i) then None
    else
      var open := SkipWhitespace(text, i + |Marker|);
      if open == |text| || text[open] != '{' then None
      else
        match FindChar(text, '}', open + 1)
        case None => None
        case Some(k) => Some(Match(i, open, k + 1))
  }

  /** Every match is the one the attempt at its start position finds: a
      start position has at most one match, and the scan misses none. */
  lemma MatchAtComplete(text: string, m: Match)
    requires IsMatch(text, m)
    ensures MatchAt(text, m.start) == Some(m)
  {
    var open := SkipWhitespace(text, m.start + |Marker|);
    assert open == m.open;
    var f := FindChar(text, '}', open + 1);
    assert f.Some? && f.value == m.end - 1;
  }

  /** The attempts at i, i + 1, ... up to the end of the text. */
  function FindMatchFrom(text: string, i: nat): (r: Option<Match>)
    requires i <= |text|
    ensures r.Some? ==> IsMatch(text, r.value) && i <= r.value.start
    ensures r.Some? ==> forall j :: i <= j < r.value.start ==> MatchAt(text, j).None?
    ensures r.None? ==> forall j :: i <= j <= |text| ==> MatchAt(text, j).None?
    decreases |text| - i
  {
    if MatchAt(text, i).Some? then MatchAt(text, i)
    else if i == |text| then None
    else FindMatchFrom(text, i + 1)
  }

  /** text.match(pattern): the leftmost match, or None when there is none. */
  function FindMatch(text: string): (r: Option<Match>)
    ensures r.Some? ==> IsLeftmostMatch(text, r.value)
    ensures r.None? <==> forall m :: !IsMatch(text, m)
  {
    var r := FindMatchFrom(text, 0);
    if r.Some? then
      LeftmostFound(text, r.value);
      r
    else
      NoneFound(text);
      r
  }

  lemma LeftmostFound(text: string, m: Match)
    requires IsMatch(text, m)
    requires forall j :: 0 <= j < m.start ==> MatchAt(text, j).None?
    ensures IsLeftmostMatch(text, m)
  {
    forall m' | IsMatch(text, m') ensures m.start <= m'.start {
      MatchAtComplete(text, m');
    }
  }

  lemma NoneFound(text: string)
    requires forall j :: 0 <= j <= |text| ==> MatchAt(text, j).None?
    ensures forall m :: !IsMatch(text, m)
  {
    forall m | IsMatch(text, m) ensures false {
      MatchAtComplete(text, m);
    }
  }

  /** Two matches at the same start are the same match. */
  lemma MatchUnique(text: string, m1: Match, m2: Match)
    requires IsMatch(text, m1) && IsMatch(text, m2) && m1.start == m2.start
    ensures m1 == m2
  {
    MatchAtComplete(text, m1);
    MatchAtComplete(text, m2);
  }

  /** There is only one leftmost match, and the scan finds it. */
  lemma FindMatchIsTheLeftmost(text: string, m: Match)
    requires IsLeftmostMatch(text, m)
    ensures FindMatch(text) == Some(m)
  {
    var r := FindMatch(text);
    assert r.Some?;
    MatchUnique(text, r.value, m);
  }

  lemma FoundIsTheOnlyLeftmost(text: string, m: Match)
    requires FindMatch(text) == Some(m)
    ensures forall m' :: IsLeftmostMatch(text, m') ==> m' == m
  {
    forall m' | IsLeftmostMatch(text, m') ensures m' == m {
      FindMatchIsTheLeftmost(text, m');
    }
  }

  /** The block is a '{', then anything but '}', then the one '}' it holds,
      and it begins at the first character after the marker that is not
      white space. */
  lemma BlockShape(text: string, m: Match)
    requires IsMatch(text, m)
    ensures var b := Block(text, m);
      && |b| >= 2 && b[0] == '{' && b[|b| - 1] == '}'
      && (forall k :: 0 <= k < |b| - 1 ==> b[k] != '}')
      && WhitespaceBetween(text, m.start + |Marker|, m.open)
      && m.open == SkipWhitespace(text, m.start + |Marker|)
  {
    var b := Block(text, m);
    forall k | 0 <= k < |b| - 1 ensures b[k] != '}' {
      assert b[k] == text[m.open + k];
    }
    MatchAtComplete(text, m);
  }

  // ---------- what the panel does with a message ----------

  /** parseFormData: JSON.parse of the block of the leftmost match, with
      JSON.parse given as parse (None where it throws); None when the
      pattern does not match. */
  function ParseFormData<J>(text: string, parse: string -> Option<J>): (r: Option<J>)
    ensures (forall m :: !IsMatch(text, m)) ==> r == None
    ensures forall m :: IsLeftmostMatch(text, m) ==> r == parse(Block(text, m))
  {
    match FindMatch(text)
    case None => None
    case Some(m) =>
      FoundIsTheOnlyLeftmost(text, m);
      parse(Block(text, m))
  }

  /** The text shown for a message: the leftmost match (marker and block)
      replaced by nothing, then trimmed. It does not depend on whether the
      block parses. */
  function DisplayText(text: string): (r: string)
    ensures IsTrimmed(r)
    ensures (forall m :: !IsMatch(text, m)) ==> r == Trim(text)
    ensures forall m :: IsLeftmostMatch(text, m) ==> r == Trim(text[..m.start] + text[m.end..])
  {
    match FindMatch(text)
    case None =>
      TrimSpec(text);
      Trim(text)
    case Some(m) =>
      FoundIsTheOnlyLeftmost(text, m);
      var rest := text[..m.start] + text[m.end..];
      TrimSpec(rest);
      Trim(rest)
  }

  /** A trimmed message without the marker is shown as it is and carries no
      record. */
  lemma NoMarkerShownAsIs<J>(text: string, parse: string -> Option<J>)
    requires forall i :: 0 <= i <= |text| ==> !MarkerAt(text, i)
    requires IsTrimmed(text)
    ensures DisplayText(text) == text && ParseFormData(text, parse) == None
  {
    TrimOfTrimmed(text);
  }

  const ExampleBlock := "{\"name\":\"Jane\"}"

  /** "Thanks! Updated form data: {"name":"Jane"} more text" */
  const ExampleMessage := "Thanks! " + Marker + " " + ExampleBlock + " more text"

  lemma ExampleSlices()
    ensures |ExampleMessage| == 52
    ensures ExampleMessage[..8] == "Thanks! "
    ensures ExampleMessage[8..26] == Marker
    ensures ExampleMessage[26] == ' '
    ensures ExampleMessage[27..42] == ExampleBlock
    ensures ExampleMessage[42..] == " more text"
  {
    var head, tail := "Thanks! ", " more text";
    var a := head + Marker + " ";
    assert |head| == 8 && |Marker| == 18 && |ExampleBlock| == 15 && |a| == 27;
    assert ExampleMessage == a + ExampleBlock + tail;
    assert a[..8] == head;
    assert a[8..26] == Marker;
  }

  lemma ExampleNoEarlyMarker(i: nat)
    requires i < 8
    ensures !MarkerAt(ExampleMessage, i)
  {
    var text := ExampleMessage;
    ExampleSlices();
    assert text[i] == text[..8][i];
    assert text[i] != 'U';
    assert text[i..i + |Marker|][0] == text[i];
  }

  lemma ExampleLeftmostMatch()
    ensures IsLeftmostMatch(ExampleMessage, Match(8, 27, 42))
  {
    var text := ExampleMessage;
    ExampleSlices();
    var block := ExampleBlock;
    assert text[27] == block[0] && text[41] == block[14];
    forall k | 27 < k < 41 ensures text[k] != '}' {
      assert text[k] == block[k - 27];
    }
    assert IsMatch(text, Match(8, 27, 42));
    forall m' | IsMatch(text, m') ensures 8 <= m'.start {
      if m'.start < 8 {
        ExampleNoEarlyMarker(m'.start);
      }
    }
  }

  /** The example message hands the block {"name":"Jane"} to JSON.parse. */
  lemma ExampleMessageParsed<J>(parse: string -> Option<J>)
    ensures ParseFormData(ExampleMessage, parse) == parse(ExampleBlock)
  {
    ExampleSlices();
    ExampleLeftmostMatch();
  }

  /** The example message is shown as "Thanks!  more text": the text around
      the match is kept with both of its spaces. */
  lemma ExampleMessageShown()
    ensures DisplayText(ExampleMessage) == "Thanks! " + " more text"
  {
    var text := ExampleMessage;
    ExampleSlices();
    ExampleLeftmostMatch();
    var shown := "Thanks! " + " more text";
    assert text[..8] + text[42..] == shown;
    assert shown[0] == 'T' && shown[|shown| - 1] == 't';
    TrimOfTrimmed(shown);
  }

  /** The lazy group stops at the first '}', so a record with a nested
      object, such as the address of a form, is cut after the inner object:
      JSON.parse receives an unbalanced prefix and the outer '}' stays in the
      display text. */
  lemma NestedRecordIsCut<J>(inner: string, parse: string -> Option<J>)
    requires forall k :: 0 <= k < |inner| ==> inner[k] != '}'
    ensures var head := "{\"address\":{";
      var text := Marker + head + inner + "}}";
      && ParseFormData(text, parse) == parse(head + inner + "}")
      && DisplayText(text) == "}"
  {
    var head := "{\"address\":{";
    var text := Marker + head + inner + "}}";
    var end := |Marker| + |head| + |inner| + 1;
    var m := Match(0, |Marker|, end);
    assert |head| == 12 && head[0] == '{';
    assert text[..|Marker|] == Marker;
    assert text[|Marker|..end] == head + inner + "}";
    forall k | |Marker| < k < end - 1 ensures text[k] != '}' {
      if k < |Marker| + |head| {
        assert text[k] == head[k - |Marker|];
      } else {
        assert text[k] == inner[k - |Marker| - |head|];
      }
    }
    assert IsMatch(text, m);
    assert IsLeftmostMatch(text, m);
    assert text[..0] + text[end..] == "}";
    TrimOfTrimmed("}");
  }

  // ---------- the record viewer's open/closed state ----------

  /** formDataOpen[id] ?? false: ids never toggled read as closed. */
  function IsOpen(state: map<string, bool>, id: string): (open: bool)
    ensures open <==> id in state && state[id]
  {
    if id in state then state[id] else false
  }

  /** The onOpenChange update {...prev, [id]: open}: a new map equal to prev
      except at id. */
  function SetOpen(state: map<string, bool>, id: string, open: bool): (r: map<string, bool>)
    ensures r.Keys == state.Keys + {id}
    ensures r[id] == open
    ensures forall k :: k in state && k != id ==> r[k] == state[k]
  {
    state[id := open]
  }

  /** Toggling one message's viewer sets that message's state and leaves
      every other message's state as it was. */
  lemma SetOpenChangesOnlyOneId(state: map<string, bool>, id: string, open: bool, other: string)
    ensures IsOpen(SetOpen(state, id, open), id) == open
    ensures other != id ==> IsOpen(SetOpen(state, id, open), other) == IsOpen(state, other)
  {
  }

  /** Before any toggle every viewer is closed. */
  lemma InitiallyClosed(id: string)
    ensures !IsOpen(map[], id)
  {
  }
}
