/**
 The generator cache of src/engine/resolver.rs: results of scripts are kept for thirty seconds
 under a key made of a hash of the script and the working directory.
 */
module GeneratorCache {
  import opened Prelude
  import opened SpecTypes

  const CACHE_TTL_SECS: nat := 30
  const NANOS_PER_SEC: nat := 1_000_000_000

  predicate IsExecutable(script: Script) {
    match script
    case ArgumentList(args) => exists i :: 0 <= i < |args| && args[i].Some?
    case ShellCommand(_) => true
    case NotExecutable => false
  }

  // ---------------------------------------------------------------- parsing the output

  /** The position of the first occurrence of a nonempty delimiter, or |s|. */
  function FindText(s: string, d: string): (k: nat)
    ensures k <= |s|
    ensures k < |s| ==> d <= s[k..]
  {
    if s == "" || d <= s then 0 else 1 + FindText(s[1..], d)
  }

  lemma {:induction false} FindTextIsFirst(s: string, d: string, i: nat)
    requires i < FindText(s, d)
    ensures !(d <= s[i..])
    decreases |s|
  {
    if i == 0 {
      assert s[0..] == s;
    } else {
      FindTextIsFirst(s[1..], d, i - 1);
      assert s[i..] == s[1..][i - 1..];
    }
  }

  /** An occurrence with none before it is the first. */
  lemma {:induction false} FindTextAt(s: string, d: string, k: nat)
    requires k <= |s| && (k < |s| ==> d <= s[k..])
    requires forall i :: 0 <= i < k ==> !(d <= s[i..])
    ensures FindText(s, d) == k
    decreases |s|
  {
    assert s[0..] == s;
    if k == 0 {
    } else {
      assert s[1..][k - 1..] == s[k..];
      forall i | 0 <= i < k - 1
        ensures !(d <= s[1..][i..])
      {
        assert s[1..][i..] == s[i + 1..];
      }
      FindTextAt(s[1..], d, k - 1);
    }
  }

  /** Every character, and both ends. */
  function Characters(s: string): (pieces: seq<string>)
    ensures pieces != []
  {
    [""] + seq(|s|, i requires 0 <= i < |s| => [s[i]]) + [""]
  }

  /** `str::split`: an empty delimiter separates every character and both ends. */
  function SplitOn(s: string, d: string): (pieces: seq<string>)
    ensures pieces != []
    decreases |s|
  {
    if d == "" then Characters(s)
    else
      var k := FindText(s, d);
      if k == |s| then [s] else [s[..k]] + SplitOn(s[k + |d|..], d)
  }

  function JoinWith(pieces: seq<string>, d: string): string {
    if pieces == [] then "" else if |pieces| == 1 then pieces[0] else pieces[0] + d + JoinWith(pieces[1..], d)
  }

  lemma FirstPiece(s: string, d: string, k: nat)
    requires d != "" && k == FindText(s, d)
    ensures k == |s| ==> SplitOn(s, d) == [s]
    ensures k < |s| ==> SplitOn(s, d) == [s[..k]] + SplitOn(s[k + |d|..], d)
  {
    hide FindText, Characters;
  }

  /** The pieces, joined by the delimiter, give the text back. */
  lemma {:induction false} JoinInvertsSplit(s: string, d: string)
    requires d != ""
    ensures JoinWith(SplitOn(s, d), d) == s
    decreases |s|
  {
    hide FindText, SplitOn;
    var k := FindText(s, d);
    FirstPiece(s, d, k);
    if k == |s| {
    } else {
      var tail := s[k + |d|..];
      JoinInvertsSplit(tail, d);
      assert ([s[..k]] + SplitOn(tail, d))[1..] == SplitOn(tail, d);
      assert s == s[..k] + d + tail;
    }
  }

  predicate Contains(s: string, d: string) {
    exists i :: 0 <= i <= |s| && d <= s[i..]
  }

  /** No piece contains the delimiter. */
  lemma {:induction false} PiecesLackDelimiter(s: string, d: string, p: nat)
    requires d != "" && p < |SplitOn(s, d)|
    ensures !Contains(SplitOn(s, d)[p], d)
    decreases |s|
  {
    hide FindText, SplitOn, Contains;
    var k := FindText(s, d);
    FirstPiece(s, d, k);
    if k == |s| || p == 0 {
      FirstPieceLacksDelimiter(s, d);
      assert s[..|s|] == s;
    } else {
      PiecesLackDelimiter(s[k + |d|..], d, p - 1);
    }
  }

  lemma FirstPieceLacksDelimiter(s: string, d: string)
    requires d != ""
    ensures !Contains(s[..FindText(s, d)], d)
  {
    var k := FindText(s, d);
    hide FindText;
    forall i | 0 <= i <= k
      ensures !(d <= s[..k][i..])
    {
      assert s[i..] == s[..k][i..] + s[k..];
      if i < k {
        FindTextIsFirst(s, d, i);
      }
    }
  }

  /** The characters of Unicode's White_Space property. */
  predicate IsWhitespace(c: char) {
    var v := c as int;
    9 <= v <= 13 || v == 0x20 || v == 0x85 || v == 0xA0 || v == 0x1680 || 0x2000 <= v <= 0x200A
    || v == 0x2028 || v == 0x2029 || v == 0x202F || v == 0x205F || v == 0x3000
  }

  /** Of the ASCII characters, the tab, line feed, vertical tab, form feed, carriage return and space. */
  lemma AsciiWhitespace(c: char)
    requires c as int < 0x80
    ensures IsWhitespace(c) <==>
            c == '\t' || c == '\n' || c == '\U{0B}' || c == '\U{0C}' || c == '\r' || c == ' '
  {
  }

  function Trim(s: string): string
    decreases |s|
  {
    if s != "" && IsWhitespace(s[0]) then Trim(s[1..])
    else if s != "" && IsWhitespace(s[|s| - 1]) then Trim(s[..|s| - 1])
    else s
  }

  /** Trimming removes whitespace at both ends, all of it, and nothing else. */
  lemma {:induction false} TrimExact(s: string) returns (i: nat, j: nat)
    ensures i <= j <= |s| && Trim(s) == s[i..j]
    ensures forall k :: 0 <= k < i || j <= k < |s| ==> IsWhitespace(s[k])
    ensures i < j ==> !IsWhitespace(s[i]) && !IsWhitespace(s[j - 1])
    decreases |s|
  {
    hide IsWhitespace;
    if s != "" && IsWhitespace(s[0]) {
      i, j := TrimExact(s[1..]);
      assert s[1..][i..j] == s[i + 1..j + 1];
      i, j := i + 1, j + 1;
      assert forall k :: 1 <= k < |s| ==> s[k] == s[1..][k - 1];
    } else if s != "" && IsWhitespace(s[|s| - 1]) {
      i, j := TrimExact(s[..|s| - 1]);
      assert s[..|s| - 1][i..j] == s[i..j];
      assert forall k :: 0 <= k < |s| - 1 ==> s[k] == s[..|s| - 1][k];
    } else {
      i, j := 0, |s|;
      assert s[0..|s|] == s;
    }
  }

  function TrimmedNonempty(pieces: seq<string>): seq<string> {
    if pieces == [] then []
    else (if Trim(pieces[0]) == "" then [] else [Trim(pieces[0])]) + TrimmedNonempty(pieces[1..])
  }

  function ParseLines(output: string, delimiter: string): seq<string> {
    TrimmedNonempty(SplitOn(output, delimiter))
  }

  // ---------------------------------------------------------------- one call

  /** A request for a generator's lines, with what the clock and the script would yield. */
  datatype Call = Call(
    script: Script,
    splitOn: Option<string>,
    cwd: string,
    /** The clock at the lookup, in nanoseconds. */
    now: nat,
    /** The output of the script if it is run and succeeds in time. */
    output: Option<string>,
    /** The clock when a result would be stored. */
    later: nat)

  datatype CachedResult = CachedResult(lines: seq<string>, createdAt: nat)

  type Hash = Script -> nat
  type Cache = map<(nat, string), CachedResult>

  function Key(hash: Hash, call: Call): (nat, string) {
    (hash(call.script), call.cwd)
  }

  function Delimiter(call: Call): string {
    if call.splitOn.Some? then call.splitOn.value else "\n"
  }

  /** Whole seconds since an instant; zero if it lies ahead. */
  function ElapsedSecs(since: nat, now: nat): nat {
    if now <= since then 0 else (now - since) / NANOS_PER_SEC
  }

  predicate IsHit(hash: Hash, cache: Cache, call: Call) {
    Key(hash, call) in cache && ElapsedSecs(cache[Key(hash, call)].createdAt, call.now) < CACHE_TTL_SECS
  }

  /** The script is run for this call, and succeeds. */
  predicate IsStored(hash: Hash, cache: Cache, call: Call) {
    IsExecutable(call.script) && !IsHit(hash, cache, call) && call.output.Some?
  }

  function Result(call: Call): CachedResult
    requires call.output.Some?
  {
    CachedResult(ParseLines(call.output.value, Delimiter(call)), call.later)
  }

  function CacheAfterCall(hash: Hash, cache: Cache, call: Call): Cache {
    if IsStored(hash, cache, call) then cache[Key(hash, call) := Result(call)] else cache
  }

  /** The lines served. */
  function Served(hash: Hash, cache: Cache, call: Call): seq<string> {
    if call.script.NotExecutable? then []
    else if IsHit(hash, cache, call) then cache[Key(hash, call)].lines
    else if IsStored(hash, cache, call) then Result(call).lines
    else []
  }

  class Generators {
    var cache: Cache

    constructor ()
      ensures cache == map[]
    {
      cache := map[];
    }

    method ExecuteGenerator(hash: Hash, call: Call) returns (lines: seq<string>)
      modifies this
      ensures cache == CacheAfterCall(hash, old(cache), call)
      ensures lines == Served(hash, old(cache), call)
    {
      lines := [];
      if call.script.NotExecutable? {
        return;
      }
      var delimiter := Delimiter(call);
      var key := (hash(call.script), call.cwd);
      if key in cache {
        var cached := cache[key];
        if ElapsedSecs(cached.createdAt, call.now) < CACHE_TTL_SECS {
          return cached.lines;
        }
      }
      if call.script.ArgumentList? {
        if !exists i | 0 <= i < |call.script.args| :: call.script.args[i].Some? {
          return;
        }
      }
      if call.output.None? {
        return;
      }
      lines := ParseLines(call.output.value, delimiter);
      cache := cache[key := CachedResult(lines, call.later)];
    }
  }

  // ---------------------------------------------------------------- whole runs

  function CacheAfter(hash: Hash, calls: seq<Call>): Cache {
    if calls == [] then map[]
    else CacheAfterCall(hash, CacheAfter(hash, calls[..|calls| - 1]), calls[|calls| - 1])
  }

  /** The call ran its script successfully, and its result entered the cache. */
  predicate StoredAt(hash: Hash, calls: seq<Call>, j: nat)
    requires j < |calls|
  {
    IsStored(hash, CacheAfter(hash, calls[..j]), calls[j])
  }

  /** Every entry is the result of the last successful run stored under its key. */
  lemma {:induction false} EntryOrigin(hash: Hash, calls: seq<Call>, key: (nat, string)) returns (j: nat)
    requires key in CacheAfter(hash, calls)
    ensures j < |calls| && StoredAt(hash, calls, j) && Key(hash, calls[j]) == key
    ensures CacheAfter(hash, calls)[key] == Result(calls[j])
    ensures forall k :: j < k < |calls| && StoredAt(hash, calls, k) ==> Key(hash, calls[k]) != key
  {
    hide ParseLines, IsStored;
    var n := |calls| - 1;
    var init := calls[..n];
    if StoredAt(hash, calls, n) && Key(hash, calls[n]) == key {
      j := n;
    } else {
      j := EntryOrigin(hash, init, key);
      assert init[..j] == calls[..j];
      forall k | j < k < |calls| && StoredAt(hash, calls, k)
        ensures Key(hash, calls[k]) != key
      {
        if k < n {
          assert init[..k] == calls[..k];
          assert StoredAt(hash, init, k);
        }
      }
    }
  }

  /** Each call looks before it stores, and starts after the previous one has ended. */
  predicate IsMonotone(calls: seq<Call>) {
    && (forall i :: 0 <= i < |calls| ==> calls[i].now <= calls[i].later)
    && (forall i, j :: 0 <= i < j < |calls| ==> calls[i].later <= calls[j].now)
  }

  /** Different scripts have different hashes. */
  predicate HasNoCollisions(hash: Hash, calls: seq<Call>) {
    forall i, j :: 0 <= i < |calls| && 0 <= j < |calls| && hash(calls[i].script) == hash(calls[j].script)
                   ==> calls[i].script == calls[j].script
  }

  /** A script is always used with the same delimiter. The key does not include it. */
  predicate HasOneDelimiter(calls: seq<Call>) {
    forall i, j :: 0 <= i < |calls| && 0 <= j < |calls| && calls[i].script == calls[j].script
                   ==> Delimiter(calls[i]) == Delimiter(calls[j])
  }

  /**
   What call `i` is served comes from a successful run `j` of the same script in the same
   directory, split by its own delimiter, and stored just now or less than thirty seconds before.
   */
  predicate IsFreshResult(hash: Hash, calls: seq<Call>, i: nat, j: nat, lines: seq<string>)
    requires i < |calls|
  {
    && j <= i && StoredAt(hash, calls, j) && calls[j].output.Some?
    && calls[j].script == calls[i].script && calls[j].cwd == calls[i].cwd
    && lines == ParseLines(calls[j].output.value, Delimiter(calls[i]))
    && (j < i ==> calls[j].later <= calls[i].now < calls[j].later + 30_000_000_000)
  }

  lemma ServedIsFresh(hash: Hash, calls: seq<Call>, i: nat)
    requires i < |calls| && IsMonotone(calls) && HasNoCollisions(hash, calls) && HasOneDelimiter(calls)
    ensures var lines := Served(hash, CacheAfter(hash, calls[..i]), calls[i]);
            lines == [] || exists j :: IsFreshResult(hash, calls, i, j, lines)
  {
    hide ParseLines, CacheAfter;
    var before := calls[..i];
    var cache := CacheAfter(hash, before);
    var lines := Served(hash, cache, calls[i]);
    if !calls[i].script.NotExecutable? {
      if IsHit(hash, cache, calls[i]) {
        var j := EntryOrigin(hash, before, Key(hash, calls[i]));
        assert before[..j] == calls[..j];
        WholeSeconds(calls[j].later, calls[i].now);
        assert IsFreshResult(hash, calls, i, j, lines);
      } else if IsStored(hash, cache, calls[i]) {
        assert IsFreshResult(hash, calls, i, i, lines);
      }
    }
  }

  /** Counting whole seconds, an entry is used for strictly less than thirty seconds. */
  lemma WholeSeconds(since: nat, now: nat)
    ensures ElapsedSecs(since, now) < CACHE_TTL_SECS <==> now < since + 30_000_000_000
  {
  }

  // ---------------------------------------------------------------- lines of an output

  /** Space, tab, carriage return. */
  predicate IsPadding(s: string) {
    forall i :: 0 <= i < |s| ==> s[i] == ' ' || s[i] == '\t' || s[i] == '\r'
  }

  /** A line of printable ASCII at both ends and no newline in between. */
  predicate IsProperLine(line: string) {
    && line != "" && '!' <= line[0] <= '~' && '!' <= line[|line| - 1] <= '~'
    && '\n' !in line
  }

  lemma {:induction false} TrimPadded(before: string, line: string, after: string)
    requires IsPadding(before) && IsProperLine(line) && IsPadding(after)
    ensures Trim(before + line + after) == line
    decreases |before| + |after|
  {
    var s := before + line + after;
    if before != "" {
      assert s[0] == before[0] && s[1..] == before[1..] + line + after;
      TrimPadded(before[1..], line, after);
    } else if after != "" {
      var init := after[..|after| - 1];
      assert s[0] == line[0] && s[|s| - 1] == after[|after| - 1] && s[..|s| - 1] == before + line + init;
      TrimPadded(before, line, init);
    } else {
      assert s == line;
    }
  }

  /** The first line of an output, up to its newline. */
  lemma FirstLine(line: string, rest: string)
    requires '\n' !in line
    ensures SplitOn(line + "\n" + rest, "\n") == [line] + SplitOn(rest, "\n")
  {
    hide FindText, SplitOn;
    var s := line + "\n" + rest;
    assert s[|line|..] == "\n" + rest;
    forall i | 0 <= i < |line|
      ensures !("\n" <= s[i..])
    {
      assert s[i..][0] == line[i];
    }
    FindTextAt(s, "\n", |line|);
    FirstPiece(s, "\n", |line|);
    assert s[..|line|] == line && s[|line| + 1..] == rest;
  }

  /** An output of padded lines, each ended by a newline. */
  function Output(lines: seq<string>, before: seq<string>, after: seq<string>): string
    requires |lines| == |before| == |after|
  {
    if lines == [] then "" else before[0] + lines[0] + after[0] + "\n" + Output(lines[1..], before[1..], after[1..])
  }

  /** Without a delimiter of its own, a generator's lines are those between newlines, without their padding. */
  lemma {:induction false} LinesReadBack(call: Call, lines: seq<string>, before: seq<string>, after: seq<string>)
    requires call.splitOn.None? && |lines| == |before| == |after|
    requires forall i :: 0 <= i < |lines| ==> IsPadding(before[i]) && IsProperLine(lines[i]) && IsPadding(after[i])
    ensures ParseLines(Output(lines, before, after), Delimiter(call)) == lines
    decreases |lines|
  {
    hide SplitOn, Trim, IsPadding, IsProperLine;
    if lines == [] {
      OnePiece("", "\n");
      LinesOfOne("");
      TrimOfNothing();
    } else {
      var first := before[0] + lines[0] + after[0];
      var rest := Output(lines[1..], before[1..], after[1..]);
      TrimPadded(before[0], lines[0], after[0]);
      NoNewlineInside(before[0], lines[0], after[0]);
      FirstLine(first, rest);
      LinesReadBack(call, lines[1..], before[1..], after[1..]);
      assert ([first] + SplitOn(rest, "\n"))[1..] == SplitOn(rest, "\n");
    }
  }

  lemma NoNewlineInside(before: string, line: string, after: string)
    requires IsPadding(before) && IsProperLine(line) && IsPadding(after)
    ensures '\n' !in before + line + after && line != ""
  {
  }

  // ---------------------------------------------------------------- when the delimiter matters

  /** Where the delimiter does not occur, the text is one piece. */
  lemma OnePiece(s: string, d: string)
    requires d != "" && !Contains(s, d)
    ensures SplitOn(s, d) == [s]
  {
    hide FindText, SplitOn;
    FindTextAt(s, d, |s|);
    FirstPiece(s, d, |s|);
  }

  /** A character that is neither whitespace nor the first or last character of a delimiter. */
  function Outside(d: string): (a: char)
    ensures !IsWhitespace(a) && (d != "" ==> a != d[0] && a != d[|d| - 1])
  {
    if d == "" || (d[0] != 'x' && d[|d| - 1] != 'x') then 'x'
    else if d[0] != 'y' && d[|d| - 1] != 'y' then 'y'
    else 'z'
  }

  lemma LinesOfOne(s: string)
    ensures TrimmedNonempty([s]) == if Trim(s) == "" then [] else [Trim(s)]
    ensures TrimmedNonempty([s, s]) == TrimmedNonempty([s]) + TrimmedNonempty([s])
  {
    assert [s][1..] == [] && [s, s][1..] == [s];
    assert TrimmedNonempty([s]) + [] == TrimmedNonempty([s]);
  }

  /** A text framed by a character outside the delimiters, to which trimming does nothing. */
  lemma FramedIsTrimmed(a: char, d: string)
    requires !IsWhitespace(a)
    ensures Trim([a] + d + [a]) == [a] + d + [a]
  {
    hide IsWhitespace;
    var s := [a] + d + [a];
    assert s[0] == a == s[|s| - 1];
  }

  /** A longer or different delimiter does not occur in a text framed by a character outside it. */
  lemma NotInFramed(a: char, d1: string, d2: string)
    requires d2 != "" && a != d2[0] && a != d2[|d2| - 1] && d1 != d2 && |d1| <= |d2|
    ensures !Contains([a] + d1 + [a], d2)
  {
    var s := [a] + d1 + [a];
    forall i | 0 <= i <= |s|
      ensures !(d2 <= s[i..])
    {
      if i + |d2| <= |s| {
        if i == 0 {
          assert s[i..][0] == a;
        } else if i + |d2| == |s| {
          assert s[i..][|d2| - 1] == a;
        } else {
          assert i == 1 && s[i..][..|d2|] == d1;
        }
      }
    }
  }

  /** Two characters around an empty delimiter are two lines. */
  lemma EmptyDelimiter(a: char, s: string)
    requires !IsWhitespace(a) && s == [a, a]
    ensures ParseLines(s, "") == [[a], [a]]
  {
    hide IsWhitespace;
    var pieces := ["", [a], [a], ""];
    assert SplitOn(s, "") == pieces;
    assert pieces[1..] == [[a], [a], ""] && [[a], [a], ""][1..] == [[a], ""] && [[a], ""][1..] == [""];
    LinesOfOne("");
    assert TrimmedNonempty([[a], ""]) == [[a]];
    assert TrimmedNonempty([[a], [a], ""]) == [[a]] + [[a]] == [[a], [a]];
  }

  lemma TrimOfNothing()
    ensures Trim("") == ""
  {
  }

  lemma TrimOfOne(a: char)
    requires !IsWhitespace(a)
    ensures Trim([a]) == [a]
  {
  }

  lemma NotInOne(a: char, d: string)
    requires d != "" && d[0] != a
    ensures !Contains([a], d)
  {
    forall i | 0 <= i <= 1
      ensures !(d <= [a][i..])
    {
      if i == 0 {
        assert [a][0..][0] == a;
      }
    }
  }

  lemma CutsOfFramed(a: char, d: string)
    ensures var s := [a] + d + [a]; s[0] == a && s[..1] == [a] && s[1..] == d + [a] && s[1 + |d|..] == [a]
  {
  }

  /** The delimiter between two characters outside it is found there. */
  lemma FoundBetween(a: char, d: string, s: string)
    requires s != "" && s[0] == a && s[1..] == d + [a] && d != "" && d[0] != a
    ensures FindText(s, d) == 1
  {
    FirstHere(s[1..], d);
  }

  lemma FirstHere(s: string, d: string)
    requires d <= s && d != ""
    ensures FindText(s, d) == 0
  {
  }

  /** Two characters around a delimiter of whitespace are two lines. */
  lemma TwoPieces(a: char, d: string)
    requires !IsWhitespace(a) && d != "" && Trim(d) == ""
    ensures ParseLines([a] + d + [a], d) == [[a], [a]]
  {
    hide IsWhitespace, SplitOn, FindText, Trim, TrimmedNonempty, Contains;
    var i, j := TrimExact(d);
    assert d[0] != a;
    var s := [a] + d + [a];
    CutsOfFramed(a, d);
    FoundBetween(a, d, s);
    FirstPiece(s, d, 1);
    NotInOne(a, d);
    OnePiece([a], d);
    LinesOfOne([a]);
    TrimOfOne(a);
    assert [[a]] + [[a]] == [[a], [a]];
  }

  /** A delimiter leaves nothing of itself. */
  lemma NothingLeft(d: string)
    requires d != ""
    ensures ParseLines(d, d) == []
  {
    hide Trim, SplitOn, FindText, TrimmedNonempty;
    TrimOfNothing();
    assert d[0..] == d && d[|d|..] == "" && d[..0] == "";
    FindTextAt(d, d, 0);
    FirstPiece(d, d, 0);
    OnePiece("", d);
    LinesOfOne("");
    assert [""] + [""] == ["", ""];
  }

  /** It is left whole by another delimiter that is no shorter. */
  lemma LeftWhole(d1: string, d2: string)
    requires d1 != d2 && |d1| <= |d2| && Trim(d1) != ""
    ensures ParseLines(d1, d2) == [Trim(d1)]
  {
    hide Trim, SplitOn, TrimmedNonempty;
    forall i | 0 <= i <= |d1|
      ensures !(d2 <= d1[i..])
    {
      assert |d2| > |d1[i..]| || d1[i..] == d1;
    }
    OnePiece(d1, d2);
    LinesOfOne(d1);
  }

  /** An output that two delimiters split differently, the first being no longer than the second. */
  lemma SplitsDiffer(d1: string, d2: string) returns (output: string)
    requires d1 != d2 && |d1| <= |d2|
    ensures ParseLines(output, d1) != ParseLines(output, d2)
  {
    hide IsWhitespace;
    var a := Outside(d2);
    output := [a] + d1 + [a];
    FramedIsTrimmed(a, d1);
    NotInFramed(a, d1, d2);
    OnePiece(output, d2);
    LinesOfOne(output);
    FramedIsTrimmed(a, "");
    if d1 == "" {
      EmptyDelimiter(a, output);
    } else if Trim(d1) == "" {
      TwoPieces(a, d1);
    } else {
      output := d1;
      NothingLeft(d1);
      LeftWhole(d1, d2);
    }
  }

  /** Two delimiters give the same lines for every output of a script exactly if they are the same. */
  lemma SameLinesIff(d1: string, d2: string)
    ensures (forall output :: ParseLines(output, d1) == ParseLines(output, d2)) <==> d1 == d2
  {
    hide ParseLines;
    if d1 != d2 {
      var output;
      if |d1| <= |d2| {
        output := SplitsDiffer(d1, d2);
      } else {
        output := SplitsDiffer(d2, d1);
      }
      assert ParseLines(output, d1) != ParseLines(output, d2);
    }
  }

  // ---------------------------------------------------------------- hits without the assumption on delimiters

  /** The call that stored what a later call is served: the last one under its key. */
  predicate IsOrigin(hash: Hash, calls: seq<Call>, i: nat, j: nat)
    requires i < |calls|
  {
    && j < i && StoredAt(hash, calls, j) && Key(hash, calls[j]) == Key(hash, calls[i])
    && forall k :: j < k < i && StoredAt(hash, calls, k) ==> Key(hash, calls[k]) != Key(hash, calls[i])
  }

  /**
   With no assumption on delimiters: a hit is served the output of the last successful run under
   its key, split by the delimiter of the call that stored it. Without collisions it is a run of
   the same script.
   */
  lemma HitUsesStoredDelimiter(hash: Hash, calls: seq<Call>, i: nat) returns (j: nat)
    requires i < |calls| && IsExecutable(calls[i].script) && IsHit(hash, CacheAfter(hash, calls[..i]), calls[i])
    ensures IsOrigin(hash, calls, i, j) && calls[j].output.Some? && calls[j].cwd == calls[i].cwd
    ensures HasNoCollisions(hash, calls) ==> calls[j].script == calls[i].script
    ensures Served(hash, CacheAfter(hash, calls[..i]), calls[i]) ==
            ParseLines(calls[j].output.value, Delimiter(calls[j]))
  {
    hide ParseLines, CacheAfter;
    var before := calls[..i];
    j := EntryOrigin(hash, before, Key(hash, calls[i]));
    assert before[..j] == calls[..j];
    forall k | j < k < i && StoredAt(hash, calls, k)
      ensures Key(hash, calls[k]) != Key(hash, calls[i])
    {
      assert before[..k] == calls[..k];
      assert StoredAt(hash, before, k);
    }
  }

  /** The last result stored under a key is what the cache holds there. */
  lemma {:induction false} OriginIsEntry(hash: Hash, calls: seq<Call>, j: nat)
    requires j < |calls| && StoredAt(hash, calls, j)
    requires forall k :: j < k < |calls| && StoredAt(hash, calls, k) ==> Key(hash, calls[k]) != Key(hash, calls[j])
    ensures calls[j].output.Some? && Key(hash, calls[j]) in CacheAfter(hash, calls)
    ensures CacheAfter(hash, calls)[Key(hash, calls[j])] == Result(calls[j])
    decreases |calls|
  {
    hide ParseLines, IsStored;
    var n := |calls| - 1;
    var init := calls[..n];
    StoredHasOutput(hash, calls, j);
    if j == n {
    } else {
      assert init[..j] == calls[..j];
      forall k | j < k < n && StoredAt(hash, init, k)
        ensures Key(hash, init[k]) != Key(hash, calls[j])
      {
        assert init[..k] == calls[..k] && StoredAt(hash, calls, k);
      }
      OriginIsEntry(hash, init, j);
    }
  }

  /**
   A result that was the last one stored under the key, less than thirty seconds ago, is served
   without running anything; and that is the only way not to run a script.
   */
  lemma FreshIsServed(hash: Hash, calls: seq<Call>, i: nat)
    requires i < |calls| && !calls[i].script.NotExecutable?
    ensures IsHit(hash, CacheAfter(hash, calls[..i]), calls[i]) <==>
            exists j: nat :: IsOrigin(hash, calls, i, j) && calls[i].now < calls[j].later + 30_000_000_000
    ensures forall j: nat :: IsOrigin(hash, calls, i, j) && calls[i].now < calls[j].later + 30_000_000_000 ==>
              var cache := CacheAfter(hash, calls[..i]);
              && calls[j].output.Some?
              && Served(hash, cache, calls[i]) == ParseLines(calls[j].output.value, Delimiter(calls[j]))
              && CacheAfterCall(hash, cache, calls[i]) == cache
  {
    hide ParseLines, CacheAfter, StoredAt;
    var before := calls[..i];
    var cache := CacheAfter(hash, before);
    forall j: nat | IsOrigin(hash, calls, i, j)
      ensures calls[j].output.Some? && Key(hash, calls[i]) in cache
      ensures cache[Key(hash, calls[i])] == Result(calls[j])
      ensures IsHit(hash, cache, calls[i]) <==> calls[i].now < calls[j].later + 30_000_000_000
    {
      PrefixStores(hash, calls, i);
      OriginIsEntry(hash, before, j);
      WholeSeconds(calls[j].later, calls[i].now);
    }
    if IsHit(hash, cache, calls[i]) {
      var j := EntryOrigin(hash, before, Key(hash, calls[i]));
      PrefixStores(hash, calls, i);
      assert IsOrigin(hash, calls, i, j);
    }
  }

  lemma PrefixStores(hash: Hash, calls: seq<Call>, i: nat)
    requires i <= |calls|
    ensures forall k :: 0 <= k < i ==> (StoredAt(hash, calls[..i], k) <==> StoredAt(hash, calls, k))
  {
    hide IsStored, CacheAfter;
    assert forall k :: 0 <= k < i ==> calls[..i][..k] == calls[..k];
  }

  /**
   Otherwise the script is run: a shell command, or an argument list that holds a string. Its
   output, if it succeeds, is served split by the caller's delimiter, and stored; if not, nothing is.
   */
  lemma OtherwiseRun(hash: Hash, cache: Cache, call: Call)
    requires !IsHit(hash, cache, call) || call.script.NotExecutable?
    ensures var runs := match call.script
                        case ShellCommand(_) => true
                        case ArgumentList(args) => exists k :: 0 <= k < |args| && args[k].Some?
                        case NotExecutable => false;
            if runs && call.output.Some? then
              var lines := ParseLines(call.output.value, Delimiter(call));
              && Served(hash, cache, call) == lines
              && CacheAfterCall(hash, cache, call) ==
                 cache[(hash(call.script), call.cwd) := CachedResult(lines, call.later)]
            else Served(hash, cache, call) == [] && CacheAfterCall(hash, cache, call) == cache
  {
    hide ParseLines;
  }

  /** The same calls, but for what the script of one of them puts out. */
  function WithOutput(calls: seq<Call>, j: nat, output: string): seq<Call>
    requires j < |calls|
  {
    calls[j := calls[j].(output := Some(output))]
  }

  /** The same keys, stored at the same times. */
  predicate SameTimes(a: Cache, b: Cache) {
    a.Keys == b.Keys && forall key :: key in a.Keys ==> a[key].createdAt == b[key].createdAt
  }

  /** What scripts put out does not decide which results are stored, and when. */
  lemma {:induction false} OutputKeepsTimes(hash: Hash, calls: seq<Call>, j: nat, output: string)
    requires j < |calls| && calls[j].output.Some?
    ensures SameTimes(CacheAfter(hash, calls), CacheAfter(hash, WithOutput(calls, j, output)))
    decreases |calls|
  {
    hide ParseLines;
    var n := |calls| - 1;
    var calls' := WithOutput(calls, j, output);
    if j < n {
      assert calls'[..n] == WithOutput(calls[..n], j, output);
      OutputKeepsTimes(hash, calls[..n], j, output);
    } else {
      assert calls'[..n] == calls[..n];
    }
  }

  lemma OutputKeepsStores(hash: Hash, calls: seq<Call>, j: nat, output: string, k: nat)
    requires j < |calls| && calls[j].output.Some? && k < |calls|
    ensures StoredAt(hash, WithOutput(calls, j, output), k) <==> StoredAt(hash, calls, k)
  {
    hide CacheAfter;
    var calls' := WithOutput(calls, j, output);
    if j < k {
      assert calls'[..k] == WithOutput(calls[..k], j, output);
      OutputKeepsTimes(hash, calls[..k], j, output);
    } else {
      assert calls'[..k] == calls[..k];
    }
  }

  /** Whatever the storing run puts out, the hit is served that, split by the delimiter of the storing call. */
  lemma HitOnAnyOutput(hash: Hash, calls: seq<Call>, i: nat, j: nat, output: string)
    requires i < |calls| && IsExecutable(calls[i].script) && IsHit(hash, CacheAfter(hash, calls[..i]), calls[i])
    requires IsOrigin(hash, calls, i, j)
    ensures Served(hash, CacheAfter(hash, WithOutput(calls, j, output)[..i]), calls[i]) ==
            ParseLines(output, Delimiter(calls[j]))
  {
    hide CacheAfter, ParseLines, IsStored;
    assert calls[j].output.Some? by { StoredHasOutput(hash, calls, j); }
    var calls' := WithOutput(calls, j, output);
    assert calls'[..i] == WithOutput(calls[..i], j, output);
    OutputKeepsTimes(hash, calls[..i], j, output);
    var j' := HitUsesStoredDelimiter(hash, calls', i);
    OutputKeepsStores(hash, calls, j, output, j);
    OutputKeepsStores(hash, calls, j, output, j');
  }

  lemma StoredHasOutput(hash: Hash, calls: seq<Call>, j: nat)
    requires j < |calls| && StoredAt(hash, calls, j)
    ensures calls[j].output.Some?
  {
  }

  /**
   A hit is right, that is split by the caller's own delimiter whatever the storing run puts out,
   if and only if the call that stored it has the same delimiter.
   */
  lemma HitIsRightIff(hash: Hash, calls: seq<Call>, i: nat) returns (j: nat)
    requires i < |calls| && IsExecutable(calls[i].script) && IsHit(hash, CacheAfter(hash, calls[..i]), calls[i])
    ensures IsOrigin(hash, calls, i, j)
    ensures (forall output :: Served(hash, CacheAfter(hash, WithOutput(calls, j, output)[..i]), calls[i]) ==
                              ParseLines(output, Delimiter(calls[i])))
            <==> Delimiter(calls[j]) == Delimiter(calls[i])
  {
    hide CacheAfter, ParseLines, IsOrigin, Served, IsHit, Delimiter;
    j := HitUsesStoredDelimiter(hash, calls, i);
    assert IsOrigin(hash, calls, i, j) ==> j < i by { OriginIsEarlier(hash, calls, i, j); }
    forall output: string
      ensures Served(hash, CacheAfter(hash, WithOutput(calls, j, output)[..i]), calls[i]) ==
              ParseLines(output, Delimiter(calls[j]))
    {
      HitOnAnyOutput(hash, calls, i, j, output);
    }
    SameLinesIff(Delimiter(calls[j]), Delimiter(calls[i]));
  }

  lemma OriginIsEarlier(hash: Hash, calls: seq<Call>, i: nat, j: nat)
    requires i < |calls| && IsOrigin(hash, calls, i, j)
    ensures j < i
  {
  }

  /**
   Without the assumption on delimiters a result can be split the wrong way: a second generator
   with the same script and another delimiter is served the lines of the first.
   */
  lemma SharedScriptServesWrongSplit(hash: Hash)
    ensures var first := Call(ShellCommand("x"), Some("a"), "/", 0, Some("a"), 0);
            var second := Call(ShellCommand("x"), Some("b"), "/", 1, Some("a"), 1);
            && Served(hash, CacheAfter(hash, [first]), second) == []
            && Served(hash, CacheAfter(hash, []), second) == ["a"]
  {
    hide ParseLines;
    var first := Call(ShellCommand("x"), Some("a"), "/", 0, Some("a"), 0);
    assert [first][..0] == [];
    SplitsOf();
  }

  lemma SplitsOf()
    ensures ParseLines("a", "a") == [] && ParseLines("a", "b") == ["a"]
  {
    assert "a"[1..] == "" && ["a"][1..] == [];
    assert SplitOn("a", "a") == ["", ""] && ["", ""][1..] == [""] && [""][1..] == [];
    assert "a"[0] != "b"[0] && FindText("", "b") == 0;
    assert FindText("a", "b") == 1;
    assert Trim("a") == "a" && Trim("") == "";
  }
}
