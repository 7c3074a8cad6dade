/** Knuth, Morris and Pratt's search over a stream that is read into a sliding window. */
module SubstringSearch {

  const BUFFER_SIZE := 1024

  // ---------- Borders ----------

  /** The first k characters of the pattern are also the last k of its first n. */
  predicate IsBorder(p: string, n: int, k: int) {
    0 <= k < n <= |p| && p[..k] == p[n - k..n]
  }

  ghost predicate IsLongestBorder(p: string, n: int, k: int) {
    IsBorder(p, n, k) && forall j :: IsBorder(p, n, j) ==> j <= k
  }

  lemma BorderGrows(p: string, n: int, k: int)
    requires 0 <= k < n < |p|
    ensures IsBorder(p, n + 1, k + 1) <==> IsBorder(p, n, k) && p[k] == p[n]
  {
    assert p[..k + 1] == p[..k] + [p[k]];
    assert p[n - k..n + 1] == p[n - k..n] + [p[n]];
    if IsBorder(p, n + 1, k + 1) {
      assert p[..k + 1][..k] == p[n - k..n + 1][..k];
      assert p[..k + 1][k] == p[n - k..n + 1][k];
    }
  }

  lemma BorderOfBorder(p: string, n: int, k: int, j: int)
    requires IsBorder(p, n, k) && IsBorder(p, n, j) && j < k
    ensures IsBorder(p, k, j)
  {
    assert p[k - j..k] == p[..k][k - j..];
    assert p[n - k..n][k - j..] == p[n - j..n];
  }

  lemma BorderInBorder(p: string, n: int, k: int, j: int)
    requires IsBorder(p, n, k) && IsBorder(p, k, j)
    ensures IsBorder(p, n, j)
  {
    assert p[k - j..k] == p[..k][k - j..];
    assert p[n - k..n][k - j..] == p[n - j..n];
  }

  /** Every border of the first n characters that can be continued is at most k long. */
  ghost predicate NoLonger(p: string, n: int, k: int) {
    n < |p| && forall j :: IsBorder(p, n, j) && p[j] == p[n] ==> j <= k
  }

  lemma ShorterCandidate(p: string, n: int, k: int, next: int)
    requires IsBorder(p, n, k) && k > 0 && NoLonger(p, n, k) && p[k] != p[n] && IsLongestBorder(p, k, next)
    ensures IsBorder(p, n, next) && NoLonger(p, n, next)
  {
    BorderInBorder(p, n, k, next);
    forall j | IsBorder(p, n, j) && p[j] == p[n]
      ensures j <= next
    {
      BorderOfBorder(p, n, k, j);
    }
  }

  lemma CandidateFound(p: string, n: int, k: int)
    requires IsBorder(p, n, k) && NoLonger(p, n, k) && (k > 0 ==> p[k] == p[n])
    ensures IsLongestBorder(p, n + 1, if p[k] == p[n] then k + 1 else k)
  {
    BorderGrows(p, n, k);
    var m := n + 1;
    forall j | IsBorder(p, m, j)
      ensures j <= if p[k] == p[n] then k + 1 else k
    {
      if j > 0 {
        BorderGrows(p, n, j - 1);
      }
    }
  }

  /** Entry i is the length of the longest border of the first i + 1 characters. */
  ghost predicate IsPrefixTable(p: string, prefix: seq<int>, n: int) {
    0 <= n <= |p| && n <= |prefix| && forall i :: 0 <= i < n ==> IsLongestBorder(p, i + 1, prefix[i])
  }

  lemma TableExtended(p: string, prefix: seq<int>, n: int, k: int)
    requires IsPrefixTable(p, prefix, n) && n < |p| && n < |prefix| && IsLongestBorder(p, n + 1, k)
    ensures IsPrefixTable(p, prefix[n := k], n + 1)
  {
  }

  /** Tries the borders of the first i characters, the longest first, until one can be continued. */
  method NextEntry(prefix: array<int>, substring: string, i: nat) returns (k: int)
    requires 0 < i < |substring| == prefix.Length && IsPrefixTable(substring, prefix[..], i)
    ensures IsLongestBorder(substring, i + 1, k)
  {
    k := prefix[i - 1];
    assert IsLongestBorder(substring, i, prefix[..][i - 1]);
    while k > 0 && substring[i] != substring[k]
      invariant IsBorder(substring, i, k) && NoLonger(substring, i, k)
    {
      assert IsLongestBorder(substring, k, prefix[..][k - 1]);
      ShorterCandidate(substring, i, k, prefix[k - 1]);
      k := prefix[k - 1];
    }
    CandidateFound(substring, i, k);
    if substring[i] == substring[k] {
      k := k + 1;
    }
  }

  method InitPrefixTable(prefix: array<int>, substring: string)
    requires |substring| > 0 && prefix.Length == |substring|
    modifies prefix
    ensures IsPrefixTable(substring, prefix[..], |substring|)
  {
    prefix[0] := 0;
    for i := 1 to |substring|
      invariant IsPrefixTable(substring, prefix[..], i)
    {
      var k := NextEntry(prefix, substring, i);
      TableExtended(substring, prefix[..], i, k);
      ghost var after := prefix[..][i := k];
      prefix[i] := k;
      assert prefix[..] == after;
    }
  }

  // ---------- Occurrences ----------

  /** The first n characters of the pattern stand in the text at position g. */
  predicate Agrees(text: string, p: string, g: int, n: int) {
    0 <= g && 0 <= n <= |p| && g + n <= |text| && text[g..g + n] == p[..n]
  }

  predicate Occurs(text: string, p: string, g: int) {
    Agrees(text, p, g, |p|)
  }

  /** n is the length of the longest common prefix of the pattern and the text from g on. */
  predicate IsMatchLength(text: string, p: string, g: int, n: int) {
    Agrees(text, p, g, n) && (n < |p| && g + n < |text| ==> text[g + n] != p[n])
  }

  lemma MatchLengthIsLongest(text: string, p: string, g: int, n: int, k: int)
    requires IsMatchLength(text, p, g, n) && Agrees(text, p, g, k)
    ensures k <= n
  {
  }

  lemma AgreesMore(text: string, p: string, g: int, n: int)
    requires Agrees(text, p, g, n) && n < |p| && g + n < |text| && text[g + n] == p[n]
    ensures Agrees(text, p, g, n + 1)
  {
    assert text[g..g + n + 1] == text[g..g + n] + [text[g + n]];
    assert p[..n + 1] == p[..n] + [p[n]];
  }

  /** Moving the pattern so that a border of the matched part takes its place keeps the border matched. */
  lemma ShiftKeepsBorder(text: string, p: string, g: int, n: int, k: int)
    requires Agrees(text, p, g, n) && IsBorder(p, n, k)
    ensures Agrees(text, p, g + n - k, k)
  {
    assert text[g..g + n][n - k..] == text[g + n - k..g + n];
    assert p[..n][n - k..] == p[n - k..n];
  }

  /** A match at a place that the shift passes over ends before the match at g does. */
  lemma ShiftSkipsNothing(text: string, p: string, g: int, n: int, k: int, q: int, len: int)
    requires IsMatchLength(text, p, g, n) && IsLongestBorder(p, n, k)
    requires g < q < g + n - k && Agrees(text, p, q, len)
    ensures q + len < g + n
  {
    if q + len >= g + n {
      var j := g + n - q;
      assert text[q..q + len][..j] == text[g..g + n][q - g..];
      assert p[..len][..j] == p[..j];
      assert p[..n][q - g..] == p[n - j..n];
      assert IsBorder(p, n, j);
    }
  }

  // ---------- The report ----------

  /** Positions are counted from one. */
  datatype Match = Match(position: nat, length: nat)

  /** What is reported are match lengths, at ascending positions before g. */
  ghost predicate IsSound(text: string, p: string, report: seq<Match>, g: int) {
    && (forall i :: 0 <= i < |report| ==>
          && 0 < report[i].position <= g && report[i].length > 0
          && IsMatchLength(text, p, report[i].position - 1, report[i].length))
    && (forall i, j :: 0 <= i < j < |report| ==> report[i].position < report[j].position)
  }

  /** A match of positive length before g is reported, or ends inside one that begins earlier and is reported. */
  ghost predicate IsComplete(text: string, p: string, report: seq<Match>, g: int) {
    forall q: nat, n: nat :: q < g && q + |p| <= |text| && n > 0 && IsMatchLength(text, p, q, n) ==>
      IsCovered(report, q, n)
  }

  predicate IsCovered(report: seq<Match>, q: nat, n: nat) {
    || Match(q + 1, n) in report
    || exists i :: 0 <= i < |report| && report[i].position < q + 1 && q + 1 + n < report[i].position + report[i].length
  }

  function Extended(report: seq<Match>, g: nat, n: nat): seq<Match> {
    if n == 0 then report else report + [Match(g + 1, n)]
  }

  lemma CoveredStays(report: seq<Match>, g: nat, n: nat, q: nat, len: nat)
    requires IsCovered(report, q, len)
    ensures IsCovered(Extended(report, g, n), q, len)
  {
    var longer := Extended(report, g, n);
    if Match(q + 1, len) !in report {
      var i :| 0 <= i < |report| && report[i].position < q + 1 && q + 1 + len < report[i].position + report[i].length;
      assert longer[i] == report[i];
    }
  }

  /** Comparing at g and moving on by the shift keeps the report sound and complete. */
  lemma ReportExtended(text: string, p: string, report: seq<Match>, g: nat, n: nat, shift: nat)
    requires IsSound(text, p, report, g) && IsComplete(text, p, report, g) && IsMatchLength(text, p, g, n)
    requires if n == 0 then shift == 1 else shift <= n && IsLongestBorder(p, n, n - shift)
    ensures IsSound(text, p, Extended(report, g, n), g + shift)
    ensures IsComplete(text, p, Extended(report, g, n), g + shift)
  {
    var longer := Extended(report, g, n);
    forall q: nat, len: nat | q < g + shift && q + |p| <= |text| && len > 0 && IsMatchLength(text, p, q, len)
      ensures IsCovered(longer, q, len)
    {
      if q < g {
        CoveredStays(report, g, n, q, len);
      } else if q == g {
        MatchLengthIsLongest(text, p, g, n, len);
        MatchLengthIsLongest(text, p, g, len, n);
        assert longer[|longer| - 1] == Match(g + 1, n);
      } else {
        ShiftSkipsNothing(text, p, g, n, n - shift, q, len);
        assert longer[|longer| - 1] == Match(g + 1, n);
      }
    }
  }

  /** The pattern occurs exactly where a match of its whole length is reported. */
  lemma OccurrencesReported(text: string, p: string, report: seq<Match>, g: nat, q: nat)
    requires |p| > 0 && IsSound(text, p, report, g) && IsComplete(text, p, report, g) && g + |p| > |text|
    ensures Occurs(text, p, q) <==> Match(q + 1, |p|) in report
  {
    if Match(q + 1, |p|) in report {
      var i :| 0 <= i < |report| && report[i] == Match(q + 1, |p|);
      assert IsMatchLength(text, p, report[i].position - 1, report[i].length);
    }
    if Occurs(text, p, q) {
      assert IsMatchLength(text, p, q, |p|);
      assert IsCovered(report, q, |p|);
    }
  }

  // ---------- The stream and the window ----------

  class Stream {
    var rest: string

    constructor (text: string)
      ensures rest == text
    {
      rest := text;
    }

    /** fread: as many characters as asked for, fewer only at the end of the stream. */
    method Read(buffer: array<char>, at: nat, count: nat) returns (n: nat)
      requires at + count <= buffer.Length
      modifies this, buffer
      ensures n == (if count <= |old(rest)| then count else |old(rest)|) && rest == old(rest)[n..]
      ensures buffer[..at] == old(buffer[..at]) && buffer[at..at + n] == old(rest)[..n]
    {
      n := if count <= |rest| then count else |rest|;
      for i := 0 to n
        invariant rest == old(rest)
        invariant buffer[..at] == old(buffer[..at]) && buffer[at..at + i] == rest[..i]
      {
        buffer[at + i] := rest[i];
        assert buffer[at..at + i + 1] == buffer[at..at + i] + [rest[i]];
        assert rest[..i + 1] == rest[..i] + [rest[i]];
      }
      rest := rest[n..];
    }
  }

  class SearchState {
    const substring: string
    const prefix: array<int>
    var matchCount: nat

    ghost predicate Valid()
      reads this, prefix
    {
      && 0 < |substring| <= BUFFER_SIZE && prefix.Length == |substring|
      && IsPrefixTable(substring, prefix[..], |substring|) && matchCount <= |substring|
    }

    constructor (substring: string)
      requires 0 < |substring| <= BUFFER_SIZE
      ensures Valid() && this.substring == substring && matchCount == 0 && fresh(prefix)
    {
      this.substring := substring;
      this.prefix := new int[|substring|](_ => 0);
      this.matchCount := 0;
      new;
      InitPrefixTable(prefix, substring);
    }

    /** The border of the matched part stays matched. */
    method CalculateShift() returns (shift: nat)
      requires Valid()
      modifies this
      ensures Valid()
      ensures if old(matchCount) == 0 then shift == 1 && matchCount == 0
              else IsLongestBorder(substring, old(matchCount), matchCount) && shift == old(matchCount) - matchCount
    {
      if matchCount == 0 {
        return 1;
      }
      assert IsLongestBorder(substring, matchCount, prefix[..][matchCount - 1]);
      var border := prefix[matchCount - 1];
      shift := matchCount - border;
      matchCount := border;
    }
  }

  class SearchWindow {
    const inputStream: Stream
    const textBuffer: array<char>
    var textLen: nat
    var curIndex: nat
    var globalIndex: nat
    var isEmpty: bool

    /** The buffer holds the text around the global index, and the stream what follows. */
    ghost predicate Shows(text: string)
      reads this, textBuffer, inputStream
    {
      && textBuffer.Length == BUFFER_SIZE + 1
      && curIndex <= textLen <= BUFFER_SIZE && curIndex <= globalIndex
      && globalIndex - curIndex + textLen <= |text|
      && textBuffer[..textLen] == text[globalIndex - curIndex..globalIndex - curIndex + textLen]
      && inputStream.rest == text[globalIndex - curIndex + textLen..]
      && (textLen < BUFFER_SIZE ==> inputStream.rest == [])
    }

    /** Either the pattern fits into the buffer at the current index, or into the rest of the text nowhere. */
    ghost predicate Valid(text: string, m: nat)
      reads this, textBuffer, inputStream
    {
      if isEmpty then globalIndex + m > |text| else Shows(text) && curIndex + m <= textLen
    }

    constructor (input: Stream, substrLen: nat)
      requires substrLen <= BUFFER_SIZE
      modifies input
      ensures inputStream == input && fresh(textBuffer) && textBuffer.Length == BUFFER_SIZE + 1
      ensures Valid(old(input.rest), substrLen) && globalIndex == 0
    {
      inputStream := input;
      textBuffer := new char[BUFFER_SIZE + 1](_ => ' ');
      textLen, curIndex, globalIndex, isEmpty := 0, 0, 0, false;
      new;
      textLen := input.Read(textBuffer, 0, BUFFER_SIZE);
      isEmpty := textLen < substrLen;
    }

    /** The comparison goes on where the part known to match ends. */
    method IsMatch(state: SearchState, ghost text: string) returns (matches: bool)
      requires state.Valid() && !isEmpty && Valid(text, |state.substring|)
      requires Agrees(text, state.substring, globalIndex, state.matchCount)
      modifies state
      ensures state.Valid() && IsMatchLength(text, state.substring, globalIndex, state.matchCount)
      ensures matches <==> Occurs(text, state.substring, globalIndex)
    {
      for pos := state.matchCount to |state.substring|
        invariant state.Valid() && Agrees(text, state.substring, globalIndex, pos)
      {
        assert textBuffer[curIndex + pos] == textBuffer[..textLen][curIndex + pos] == text[globalIndex + pos];
        if textBuffer[curIndex + pos] != state.substring[pos] {
          state.matchCount := pos;
          if Occurs(text, state.substring, globalIndex) {
            MatchLengthIsLongest(text, state.substring, globalIndex, pos, |state.substring|);
          }
          return false;
        }
        AgreesMore(text, state.substring, globalIndex, pos);
      }
      state.matchCount := |state.substring|;
      return true;
    }

    /** memmove to the beginning of the buffer. */
    method MoveDown(from: nat, count: nat)
      requires from + count <= textBuffer.Length
      modifies textBuffer
      ensures textBuffer[..count] == old(textBuffer[from..from + count])
    {
      for i := 0 to count
        invariant forall k :: 0 <= k < i ==> textBuffer[k] == old(textBuffer[from + k])
        invariant forall k :: i <= k < textBuffer.Length ==> textBuffer[k] == old(textBuffer[k])
      {
        textBuffer[i] := textBuffer[from + i];
      }
    }

    /** What is left of the buffer moves to its beginning, and new text is read behind it. */
    method Refill(ghost text: string)
      requires Shows(text)
      modifies this, textBuffer, inputStream
      ensures globalIndex == old(globalIndex) && isEmpty == old(isEmpty) && curIndex == 0
      ensures old(textLen) == BUFFER_SIZE ==> Shows(text)
      ensures old(textLen) < BUFFER_SIZE ==> textLen == BUFFER_SIZE - old(curIndex)
    {
      var remainedTextLen := BUFFER_SIZE - curIndex;
      ghost var base := globalIndex - curIndex;
      ghost var held, rest := textBuffer[..textLen], inputStream.rest;
      assert textLen == BUFFER_SIZE ==> textBuffer[curIndex..BUFFER_SIZE] == held[curIndex..];
      MoveDown(curIndex, remainedTextLen);
      var symbolsRead := inputStream.Read(textBuffer, remainedTextLen, BUFFER_SIZE - remainedTextLen);
      textLen := remainedTextLen + symbolsRead;
      curIndex := 0;
      if old(textLen) == BUFFER_SIZE {
        assert textBuffer[..textLen] == textBuffer[..remainedTextLen] + textBuffer[remainedTextLen..textLen];
        assert text[globalIndex..globalIndex + textLen] == held[old(curIndex)..] + rest[..symbolsRead];
      }
    }

    /** The next place to compare at, with the part of the pattern known to match there. */
    method MoveForward(state: SearchState, ghost text: string) returns (shift: nat)
      requires state.Valid() && !isEmpty && Valid(text, |state.substring|)
      requires Agrees(text, state.substring, globalIndex, state.matchCount)
      modifies this, textBuffer, inputStream, state
      ensures state.Valid() && Valid(text, |state.substring|)
      ensures globalIndex == old(globalIndex) + shift && shift > 0
      ensures Agrees(text, state.substring, globalIndex, state.matchCount)
      ensures if old(state.matchCount) == 0 then shift == 1
              else shift <= old(state.matchCount) && IsLongestBorder(state.substring, old(state.matchCount), old(state.matchCount) - shift)
    {
      shift := state.CalculateShift();
      if old(state.matchCount) > 0 {
        ShiftKeepsBorder(text, state.substring, globalIndex, old(state.matchCount), state.matchCount);
      }
      Advance(shift, |state.substring|, text);
    }

    method Advance(shift: nat, substrLen: nat, ghost text: string)
      requires !isEmpty && Valid(text, substrLen) && shift <= substrLen <= BUFFER_SIZE
      modifies this, textBuffer, inputStream
      ensures Valid(text, substrLen) && globalIndex == old(globalIndex) + shift
    {
      curIndex := curIndex + shift;
      globalIndex := globalIndex + shift;
      if curIndex + substrLen > BUFFER_SIZE {
        Refill(text);
      }
      if curIndex + substrLen > textLen {
        isEmpty := true;
      }
    }
  }

  /** One comparison: what matches is reported, and the window moves on. */
  method Compare(window: SearchWindow, state: SearchState, report: seq<Match>, ghost text: string) returns (longer: seq<Match>)
    requires state.Valid() && !window.isEmpty && window.Valid(text, |state.substring|)
    requires Agrees(text, state.substring, window.globalIndex, state.matchCount)
    requires IsSound(text, state.substring, report, window.globalIndex)
    requires IsComplete(text, state.substring, report, window.globalIndex)
    modifies window, window.textBuffer, window.inputStream, state
    ensures state.Valid() && window.Valid(text, |state.substring|) && window.globalIndex > old(window.globalIndex)
    ensures Agrees(text, state.substring, window.globalIndex, state.matchCount)
    ensures IsSound(text, state.substring, longer, window.globalIndex)
    ensures IsComplete(text, state.substring, longer, window.globalIndex)
  {
    var _ := window.IsMatch(state, text);
    ghost var g, n := window.globalIndex, state.matchCount;
    longer := report;
    if state.matchCount != 0 {
      longer := report + [Match(window.globalIndex + 1, state.matchCount)];
    }
    var shift := window.MoveForward(state, text);
    ReportExtended(text, state.substring, report, g, n, shift);
  }

  /** The whole text has been searched. */
  ghost predicate IsReport(text: string, p: string, report: seq<Match>) {
    && IsSound(text, p, report, |text| + 1) && IsComplete(text, p, report, |text| + 1)
    && forall q: nat :: Occurs(text, p, q) <==> Match(q + 1, |p|) in report
  }

  lemma ReportFinished(text: string, p: string, report: seq<Match>, g: nat)
    requires |p| > 0 && IsSound(text, p, report, g) && IsComplete(text, p, report, g) && g + |p| > |text|
    ensures IsReport(text, p, report)
  {
    forall q: nat
      ensures Occurs(text, p, q) <==> Match(q + 1, |p|) in report
    {
      OccurrencesReported(text, p, report, g, q);
    }
  }

  /** Prints the prefix table, then every place compared at that matches, with the length of the match. */
  method FindSubstring(input: Stream, substring: string) returns (table: seq<int>, report: seq<Match>)
    requires 0 < |substring| <= BUFFER_SIZE
    modifies input
    ensures IsPrefixTable(substring, table, |substring|) && |table| == |substring|
    ensures IsReport(old(input.rest), substring, report)
  {
    ghost var text := input.rest;
    var state := new SearchState(substring);
    var window := new SearchWindow(input, |substring|);
    table := state.prefix[..];
    report := [];
    while !window.isEmpty
      invariant state.Valid() && window.Valid(text, |substring|)
      invariant !window.isEmpty ==> Agrees(text, substring, window.globalIndex, state.matchCount)
      invariant IsSound(text, substring, report, window.globalIndex)
      invariant IsComplete(text, substring, report, window.globalIndex)
      decreases |text| + 1 - window.globalIndex
    {
      report := Compare(window, state, report, text);
    }
    ReportFinished(text, substring, report, window.globalIndex);
  }
}
