/** The option scanner of run-test262.c for the two list styles of the test metadata:
    `[a, b, c]` on one line and one `- a` per indented line. */
module YamlOptions {
  import opened CStrings

  const NEWLINE: Byte := 10
  const SPACE: Byte := 32
  const COMMA: Byte := 44
  const DASH: Byte := 45
  const OPEN: Byte := 91
  const CLOSE: Byte := 93

  /** Blank, tab, carriage return, comma and dash are skipped between options. */
  predicate IsSkipped(c: int) {
    c == 32 || c == 9 || c == 13 || c == 44 || c == 45
  }

  /** strcspn(p, " \t\r\n,]") stops here or at the end. */
  predicate EndsToken(c: int) {
    c == 32 || c == 9 || c == 13 || c == 10 || c == 44 || c == 93
  }

  function TokenLength(text: CString): (n: nat)
    ensures n <= |text|
    ensures forall k :: 0 <= k < n ==> !EndsToken(text[k])
    ensures n < |text| ==> EndsToken(text[n])
  {
    if text == [] || EndsToken(text[0]) then 0 else 1 + TokenLength(text[1..])
  }

  /** One call of get_option on the text that is left. */
  datatype Outcome = Stop(state: int) | Found(token: CString, rest: CString, state: int)

  function Scan(text: CString, state: int): (r: Outcome)
    ensures r.Found? ==> ValidToken(r.token) && |r.rest| < |text|
  {
    if text == [] then Stop(state)
    else if text[0] == OPEN then Scan(text[1..], state + 1)
    else if text[0] == CLOSE then
      if state - 1 > 0 then Scan(text[1..], state - 1) else Stop(state - 1)
    else if IsSkipped(text[0]) then Scan(text[1..], state)
    else if text[0] == NEWLINE then
      if state > 0 || At(text, 1) == SPACE then Scan(text[1..], state) else Stop(state)
    else Found(text[..TokenLength(text)], text[TokenLength(text)..], state)
  }

  /** What the scanner can return at all. */
  predicate ValidToken(t: CString) {
    && t != [] && t[0] != OPEN && t[0] != DASH
    && forall k :: 0 <= k < |t| ==> !EndsToken(t[k])
  }

  /** The cursor *pp: an offset into the text, or NULL once the list has ended. */
  datatype Cursor = Null | Offset(pos: nat)

  datatype Option = NoOption | Some(token: CString)

  /** The bytes that end a token, those between tokens, and those that start one. */
  lemma Delimiters(c: int)
    ensures EndsToken(c) <==> c in [' ' as int, '\t' as int, '\r' as int, '\n' as int, ',' as int, ']' as int]
    ensures IsSkipped(c) <==> c in [' ' as int, '\t' as int, '\r' as int, ',' as int, '-' as int]
    ensures StartsToken(c) <==>
              && c !in [0, ' ' as int, '\t' as int, '\r' as int, '\n' as int]
              && c !in [',' as int, '-' as int, '[' as int, ']' as int]
  {
  }

  /** A token that can be returned is not empty, has no delimiter and starts with neither '[' nor '-'. */
  lemma ValidTokenIff(t: CString)
    ensures ValidToken(t) <==>
              && t != [] && t[0] !in ['[' as int, '-' as int]
              && forall c :: c in t ==>
                   c !in [' ' as int, '\t' as int, '\r' as int, '\n' as int, ',' as int, ']' as int]
  {
    forall c
      ensures EndsToken(c) <==> c in [' ' as int, '\t' as int, '\r' as int, '\n' as int, ',' as int, ']' as int]
    {
      Delimiters(c);
    }
    assert forall k :: 0 <= k < |t| ==> t[k] in t;
  }

  /** The scan from an offset on. */
  function ScanAt(text: CString, p: nat, state: int): Outcome
    requires p <= |text|
  {
    Scan(text[p..], state)
  }

  /** A byte that starts a token. */
  predicate StartsToken(c: int) {
    c != 0 && c != OPEN && c != CLOSE && c != NEWLINE && !IsSkipped(c)
  }

  /** What the scanner does at one byte. */
  lemma ScanStep(text: CString, p: nat, state: int)
    requires p <= |text| && !StartsToken(At(text, p))
    ensures var c, r := At(text, p), ScanAt(text, p, state);
            if c == 0 then r == Stop(state)
            else if c == '[' as int then r == ScanAt(text, p + 1, state + 1)
            else if c == ']' as int then
              r == if state - 1 > 0 then ScanAt(text, p + 1, state - 1) else Stop(state - 1)
            else if c == '\n' as int then
              r == if state > 0 || At(text, p + 1) == ' ' as int then ScanAt(text, p + 1, state) else Stop(state)
            else r == ScanAt(text, p + 1, state)
  {
    if p < |text| {
      assert text[p..][0] == text[p] && text[p..][1..] == text[p + 1..];
      assert At(text[p..], 1) == At(text, p + 1);
    }
  }

  /** A token reaches to the next delimiter. */
  lemma ScanToken(text: CString, p: nat, state: int) returns (n: nat)
    requires p <= |text| && StartsToken(At(text, p))
    ensures n == TokenLength(text[p..]) && 0 < n <= |text| - p
    ensures ScanAt(text, p, state) == Found(text[p..p + n], text[p + n..], state)
    ensures forall k :: p <= k < p + n ==> !EndsToken(text[k])
    ensures p + n < |text| ==> EndsToken(text[p + n])
  {
    n := TokenLength(text[p..]);
    assert text[p..][..n] == text[p..p + n] && text[p..][n..] == text[p + n..];
    assert text[p..][0] == text[p];
    forall k | p <= k < p + n ensures !EndsToken(text[k]) {
      assert text[k] == text[p..][k - p];
    }
  }

  /** get_option */
  method GetOption(text: CString, cursor: Cursor, state: int) returns (option: Option, cursor': Cursor, state': int)
    requires cursor.Offset? ==> cursor.pos <= |text|
    ensures cursor == Null ==> option == NoOption && cursor' == Null && state' == state
    ensures cursor.Offset? ==>
              var r := ScanAt(text, cursor.pos, state);
              && state' == r.state
              && (r.Stop? ==> option == NoOption && cursor' == Null)
              && (r.Found? ==>
                    && option == Some(r.token) && cursor'.Offset?
                    && cursor.pos < cursor'.pos <= |text| && text[cursor'.pos..] == r.rest)
  {
    option, cursor', state' := NoOption, cursor, state;
    if cursor == Null {
      return;
    }
    hide Scan, ScanAt, TokenLength, EndsToken, ValidToken, StartsToken, IsSkipped;
    ghost var goal := ScanAt(text, cursor.pos, state);
    var p := cursor.pos;
    while true
      invariant cursor.pos <= p <= |text|
      invariant ScanAt(text, p, state') == goal
      decreases |text| - p
    {
      var c := At(text, p);
      if StartsToken(c) {
        ghost var m := ScanToken(text, p, state');
        var n := TokenLength(text[p..]);
        option := Some(text[p..p + n]);
        cursor' := Offset(p + n);
        return;
      }
      ScanStep(text, p, state');
      if c == OPEN {
        state' := state' + 1;
      } else if c == CLOSE {
        state' := state' - 1;
        if state' <= 0 {
          cursor' := Null;
          return;
        }
      } else if c == NEWLINE {
        if !(state' > 0 || At(text, p + 1) == SPACE) {
          cursor' := Null;
          return;
        }
      } else if c == 0 {
        cursor' := Null;
        return;
      }
      p := p + 1;
    }
  }

  /** All options a caller gets until the scanner returns NULL. */
  function AllOptions(text: CString, state: int): (r: seq<CString>)
    ensures forall t :: t in r ==> ValidToken(t)
    decreases |text|
  {
    match Scan(text, state)
    case Stop(_) => []
    case Found(t, rest, s) => [t] + AllOptions(rest, s)
  }

  /** The loop of the callers: options are fetched until there is none. */
  method CollectOptions(text: CString, start: nat) returns (options: seq<CString>)
    requires start <= |text|
    ensures options == AllOptions(text[start..], 0)
  {
    options := [];
    var cursor, state := Offset(start), 0;
    while true
      invariant cursor.Offset? && cursor.pos <= |text|
      invariant options + AllOptions(text[cursor.pos..], state) == AllOptions(text[start..], 0)
      decreases |text| - cursor.pos
    {
      ghost var p, s := cursor.pos, state;
      var option;
      option, cursor, state := GetOption(text, cursor, state);
      if option == NoOption {
        return;
      }
      assert AllOptions(text[p..], s) == [option.token] + AllOptions(text[cursor.pos..], state);
      options := options + [option.token];
    }
  }

  // ----- Reading back what was printed -----

  lemma ScanSkips(c: Byte, text: CString, state: int)
    requires IsSkipped(c)
    ensures Scan([c] + text, state) == Scan(text, state)
    ensures AllOptions([c] + text, state) == AllOptions(text, state)
  {
  }

  lemma {:induction false} TokenEnds(t: CString, rest: CString)
    requires forall k :: 0 <= k < |t| ==> !EndsToken(t[k])
    requires rest == [] || EndsToken(rest[0])
    ensures TokenLength(t + rest) == |t|
  {
    if t == [] {
      assert t + rest == rest;
    } else {
      TokenEnds(t[1..], rest);
      assert (t + rest)[1..] == t[1..] + rest;
    }
  }

  lemma ScanFinds(t: CString, rest: CString, state: int)
    requires ValidToken(t) && (rest == [] || EndsToken(rest[0]))
    ensures Scan(t + rest, state) == Found(t, rest, state)
    ensures AllOptions(t + rest, state) == [t] + AllOptions(rest, state)
  {
    TokenEnds(t, rest);
    assert (t + rest)[0] == t[0] && !EndsToken(t[0]);
    assert (t + rest)[..|t|] == t && (t + rest)[|t|..] == rest;
  }

  /** The tokens separated by ", ". */
  function Commas(tokens: seq<CString>): CString {
    if tokens == [] then []
    else if |tokens| == 1 then tokens[0]
    else tokens[0] + ([COMMA, SPACE] + Commas(tokens[1..]))
  }

  /** `[a, b, c]` */
  function FlowList(tokens: seq<CString>): CString {
    [OPEN] + (Commas(tokens) + [CLOSE])
  }

  lemma CloseEnds(rest: CString)
    ensures AllOptions([CLOSE] + rest, 1) == []
  {
  }

  lemma {:induction false} CommasAreRead(tokens: seq<CString>, rest: CString)
    requires forall t :: t in tokens ==> ValidToken(t)
    ensures AllOptions(Commas(tokens) + ([CLOSE] + rest), 1) == tokens
  {
    hide ValidToken, Scan, AllOptions;
    var tail := [CLOSE] + rest;
    CloseEnds(rest);
    if tokens == [] {
      assert [] + tail == tail;
    } else if |tokens| == 1 {
      ScanFinds(tokens[0], tail, 1);
    } else {
      var more := Commas(tokens[1..]) + tail;
      assert Commas(tokens) + tail == tokens[0] + ([COMMA] + ([SPACE] + more));
      ScanFinds(tokens[0], [COMMA] + ([SPACE] + more), 1);
      ScanSkips(COMMA, [SPACE] + more, 1);
      ScanSkips(SPACE, more, 1);
      CommasAreRead(tokens[1..], rest);
    }
  }

  /** A printed flow list is read back exactly when its tokens are valid, whatever follows it. */
  lemma FlowListIsReadIff(tokens: seq<CString>, rest: CString)
    ensures AllOptions([SPACE] + (FlowList(tokens) + rest), 0) == tokens <==> forall t :: t in tokens ==> ValidToken(t)
  {
    if forall t :: t in tokens ==> ValidToken(t) {
      hide ValidToken;
      ScanSkips(SPACE, FlowList(tokens) + rest, 0);
      var body := Commas(tokens) + ([CLOSE] + rest);
      assert FlowList(tokens) + rest == [OPEN] + body;
      assert ([OPEN] + body)[1..] == body;
      CommasAreRead(tokens, rest);
    }
  }

  function Spaces(n: nat): CString {
    if n == 0 then [] else [SPACE] + Spaces(n - 1)
  }

  /** One line `- token` per token, each indented by n blanks. */
  function DashList(tokens: seq<CString>, n: nat): CString {
    if tokens == [] then []
    else [NEWLINE] + (Spaces(n) + ([DASH, SPACE] + (tokens[0] + DashList(tokens[1..], n))))
  }

  lemma {:induction false} SpacesAreSkipped(n: nat, text: CString, state: int)
    ensures AllOptions(Spaces(n) + text, state) == AllOptions(text, state)
  {
    hide AllOptions, Scan;
    if n == 0 {
      assert Spaces(n) + text == text;
    } else {
      SpacesAreSkipped(n - 1, text, state);
      ScanSkips(SPACE, Spaces(n - 1) + text, state);
      assert Spaces(n) + text == [SPACE] + (Spaces(n - 1) + text);
    }
  }

  lemma IndentedLineGoesOn(line: CString)
    requires At(line, 0) == SPACE
    ensures AllOptions([NEWLINE] + line, 0) == AllOptions(line, 0)
  {
  }

  lemma ItemIsRead(t: CString, n: nat, more: CString)
    requires n >= 1 && ValidToken(t) && (more == [] || EndsToken(more[0]))
    ensures AllOptions([NEWLINE] + (Spaces(n) + ([DASH, SPACE] + (t + more))), 0) == [t] + AllOptions(more, 0)
  {
    hide AllOptions, Scan, ValidToken;
    var item := [DASH, SPACE] + (t + more);
    var line := Spaces(n) + item;
    assert Spaces(n)[0] == SPACE;
    IndentedLineGoesOn(line);
    SpacesAreSkipped(n, item, 0);
    assert item == [DASH] + ([SPACE] + (t + more));
    ScanSkips(DASH, [SPACE] + (t + more), 0);
    ScanSkips(SPACE, t + more, 0);
    ScanFinds(t, more, 0);
  }

  lemma FirstAndRest(tokens: seq<CString>, more: seq<CString>)
    requires tokens != []
    ensures tokens + more == [tokens[0]] + (tokens[1..] + more)
  {
  }

  lemma DashListUnfolds(tokens: seq<CString>, n: nat, rest: CString)
    requires tokens != []
    ensures DashList(tokens, n) + rest ==
              [NEWLINE] + (Spaces(n) + ([DASH, SPACE] + (tokens[0] + (DashList(tokens[1..], n) + rest))))
  {
    hide Spaces;
  }

  /** An indented dash list yields its tokens, then the scan goes on with what follows. */
  lemma {:induction false} DashListIsRead(tokens: seq<CString>, n: nat, rest: CString)
    requires n >= 1 && forall t :: t in tokens ==> ValidToken(t)
    requires rest == [] || EndsToken(rest[0])
    ensures AllOptions(DashList(tokens, n) + rest, 0) == tokens + AllOptions(rest, 0)
  {
    hide AllOptions, Scan, ValidToken, Spaces;
    if tokens == [] {
      assert DashList(tokens, n) + rest == rest;
    } else {
      var more := DashList(tokens[1..], n) + rest;
      DashListUnfolds(tokens, n, rest);
      assert more == [] || EndsToken(more[0]);
      hide DashList;
      ItemIsRead(tokens[0], n, more);
      DashListIsRead(tokens[1..], n, rest);
      FirstAndRest(tokens, AllOptions(rest, 0));
    }
  }

  /** The list ends at the first line that is not indented. */
  lemma UnindentedLineEnds(rest: CString)
    requires rest == [] || (rest[0] == NEWLINE && At(rest, 1) != SPACE)
    ensures AllOptions(rest, 0) == []
  {
  }

  /** So a printed dash list that an unindented line or the end follows is read back exactly when
      its tokens are valid. */
  lemma DashListIsReadIff(tokens: seq<CString>, n: nat, rest: CString)
    requires n >= 1
    requires rest == [] || (rest[0] == NEWLINE && At(rest, 1) != SPACE)
    ensures AllOptions(DashList(tokens, n) + rest, 0) == tokens <==> forall t :: t in tokens ==> ValidToken(t)
  {
    if forall t :: t in tokens ==> ValidToken(t) {
      hide ValidToken;
      DashListIsRead(tokens, n, rest);
      UnindentedLineEnds(rest);
    }
  }

  /** How the two styles look in the metadata. */
  lemma PrintedFlowList(t: CString, u: CString)
    ensures FlowList([]) == Bytes("[]") && FlowList([t]) == Bytes("[") + t + Bytes("]")
    ensures FlowList([t, u]) == Bytes("[") + t + Bytes(", ") + u + Bytes("]")
  {
    assert [t, u][1..] == [u];
    assert Commas([t, u]) == t + ([COMMA, SPACE] + u);
    assert Bytes("[") == [OPEN] && Bytes(", ") == [COMMA, SPACE] && Bytes("]") == [CLOSE];
    hide Bytes;
  }

  lemma PrintedDashList(t: CString)
    ensures DashList([], 1) == [] && DashList([t], 1) == Bytes("\n - ") + t
  {
    var none: seq<CString> := [];
    assert [t][1..] == none && DashList(none, 1) == [];
    assert Spaces(1) == [SPACE] + Spaces(0);
    assert Bytes("\n - ") == [NEWLINE] + (Spaces(1) + [DASH, SPACE]);
    hide Bytes;
    assert DashList([t], 1) == [NEWLINE] + (Spaces(1) + ([DASH, SPACE] + (t + [])));
  }
}
