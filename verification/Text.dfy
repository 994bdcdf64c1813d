/**
 String primitives the modelled code takes from Rust's standard library: `trim`, `split`,
 `lines` and `find`. A string is a sequence of characters.
 */
module Text {
  import opened Wrappers

  /** The Unicode White_Space property, which Rust's `trim` strips. */
  predicate IsSpace(c: char) {
    var n := c as int;
    9 <= n <= 13 || n == 0x20 || n == 0x85 || n == 0xA0 || n == 0x1680 || 0x2000 <= n <= 0x200A
    || n == 0x2028 || n == 0x2029 || n == 0x202F || n == 0x205F || n == 0x3000
  }

  function TrimStart(s: string): string {
    if s != "" && IsSpace(s[0]) then TrimStart(s[1..]) else s
  }

  function TrimEnd(s: string): string {
    if s != "" && IsSpace(s[|s| - 1]) then TrimEnd(s[..|s| - 1]) else s
  }

  function Trim(s: string): string {
    TrimEnd(TrimStart(s))
  }

  predicate Trimmed(s: string) {
    s == "" || (!IsSpace(s[0]) && !IsSpace(s[|s| - 1]))
  }

  lemma {:induction false} TrimEndShape(s: string)
    ensures TrimEnd(s) <= s
    ensures TrimEnd(s) == "" || !IsSpace(TrimEnd(s)[|TrimEnd(s)| - 1])
  {
    if s != "" && IsSpace(s[|s| - 1]) {
      TrimEndShape(s[..|s| - 1]);
    }
  }

  lemma {:induction false} TrimStartShape(s: string)
    ensures TrimStart(s) == "" || !IsSpace(TrimStart(s)[0])
    ensures |TrimStart(s)| <= |s| && TrimStart(s) == s[|s| - |TrimStart(s)|..]
  {
    if s != "" && IsSpace(s[0]) {
      TrimStartShape(s[1..]);
    }
  }

  /** Trimming removes nothing from a trimmed string, and its result is trimmed. */
  lemma TrimTrims(s: string)
    ensures Trimmed(Trim(s))
    ensures Trimmed(s) ==> Trim(s) == s
  {
    TrimStartShape(s);
    TrimEndShape(TrimStart(s));
  }

  ghost predicate AllSpace(s: string) {
    forall c :: c in s ==> IsSpace(c)
  }

  /** Trimming takes off white space at both ends and nothing else. */
  lemma TrimLeaves(s: string) returns (before: string, after: string)
    ensures s == before + Trim(s) + after && AllSpace(before) && AllSpace(after)
  {
    before := StartLeaves(s);
    after := EndLeaves(TrimStart(s));
  }

  lemma {:induction false} StartLeaves(s: string) returns (before: string)
    ensures s == before + TrimStart(s) && AllSpace(before)
  {
    before := "";
    if s != "" && IsSpace(s[0]) {
      before := StartLeaves(s[1..]);
      before := [s[0]] + before;
    }
  }

  lemma {:induction false} EndLeaves(s: string) returns (after: string)
    ensures s == TrimEnd(s) + after && AllSpace(after)
  {
    after := "";
    if s != "" && IsSpace(s[|s| - 1]) {
      after := EndLeaves(s[..|s| - 1]);
      after := after + [s[|s| - 1]];
    }
  }

  lemma {:induction false} FirstVisibleStays(s: string)
    requires s != "" && !IsSpace(s[0])
    ensures TrimEnd(s) != ""
  {
    if IsSpace(s[|s| - 1]) {
      FirstVisibleStays(s[..|s| - 1]);
    }
  }

  lemma TrimShrinks(s: string)
    ensures forall c :: c in Trim(s) ==> c in s
  {
    TrimStartShape(s);
    TrimEndShape(TrimStart(s));
  }

  predicate StartsWith(s: string, prefix: string) {
    prefix <= s
  }

  /** A prefix agrees with the string at every position. */
  lemma PrefixChar(s: string, prefix: string, k: nat)
    requires StartsWith(s, prefix) && k < |prefix|
    ensures k < |s| && s[k] == prefix[k]
  {
  }

  predicate EndsWith(s: string, suffix: string) {
    |suffix| <= |s| && s[|s| - |suffix|..] == suffix
  }

  lemma Assoc<T>(a: seq<T>, b: seq<T>, c: seq<T>)
    ensures a + (b + c) == (a + b) + c
  {
  }

  /** Rust's `str::split` on one character: never empty. */
  function Split(s: string, c: char): (r: seq<string>)
    ensures r != []
  {
    if s == "" then [""]
    else if s[0] == c then [""] + Split(s[1..], c)
    else
      var r := Split(s[1..], c);
      [[s[0]] + r[0]] + r[1..]
  }

  function Join(parts: seq<string>, c: char): string {
    if parts == [] then ""
    else if |parts| == 1 then parts[0]
    else parts[0] + [c] + Join(parts[1..], c)
  }

  lemma {:induction false} SplitPieces(s: string, c: char)
    ensures Join(Split(s, c), c) == s
    ensures forall p :: p in Split(s, c) ==> c !in p
  {
    SplitJoinsBack(s, c);
    if s != "" {
      SplitPieces(s[1..], c);
      var r := Split(s[1..], c);
      hide Split, Join;
      assert r == [r[0]] + r[1..];
      forall p | p in Split(s, c)
        ensures c !in p
      {
        SplitCons(s, c);
      }
    }
  }

  lemma SplitCons(s: string, c: char)
    requires s != ""
    ensures var r := Split(s[1..], c);
            Split(s, c) == if s[0] == c then [""] + r else [[s[0]] + r[0]] + r[1..]
  {
  }

  lemma {:induction false} SplitJoinsBack(s: string, c: char)
    ensures Join(Split(s, c), c) == s
  {
    if s != "" {
      SplitJoinsBack(s[1..], c);
      var r := Split(s[1..], c);
      if s[0] == c {
        assert Split(s, c)[1..] == r;
      } else {
        assert Split(s, c)[1..] == r[1..];
      }
    }
  }

  lemma {:induction false} SplitPlain(p: string, c: char)
    requires c !in p
    ensures Split(p, c) == [p]
  {
    if p != "" {
      assert p[0] in p;
      SplitPlain(p[1..], c);
      assert p == [p[0]] + p[1..];
    }
  }

  lemma {:induction false} SplitAfter(p: string, rest: string, c: char)
    requires c !in p
    ensures Split(p + [c] + rest, c) == [p] + Split(rest, c)
  {
    var s := p + [c] + rest;
    if p == "" {
      assert s[1..] == rest;
    } else {
      SplitAfter(p[1..], rest, c);
      assert s[1..] == p[1..] + [c] + rest;
      assert p == [p[0]] + p[1..];
    }
  }

  /** Splitting undoes joining when no part holds the separator. */
  lemma {:induction false} SplitJoin(parts: seq<string>, c: char)
    requires parts != []
    requires forall p :: p in parts ==> c !in p
    ensures Split(Join(parts, c), c) == parts
  {
    if |parts| == 1 {
      SplitPlain(parts[0], c);
    } else {
      SplitJoin(parts[1..], c);
      SplitAfter(parts[0], Join(parts[1..], c), c);
    }
  }

  predicate OccursAt(text: string, part: string, at: nat) {
    at + |part| <= |text| && text[at..at + |part|] == part
  }

  lemma OccursInTail(text: string, part: string, from: nat, k: nat)
    requires from <= |text| && from <= k
    ensures OccursAt(text[from..], part, k - from) <==> OccursAt(text, part, k)
  {
    if k + |part| <= |text| {
      assert text[from..][k - from..k - from + |part|] == text[k..k + |part|];
    }
  }

  /** The leftmost occurrence of `part` at or after position `from`. */
  function FindFrom(text: string, part: string, from: nat): (r: Option<nat>)
    requires from <= |text|
    ensures r.Some? ==> r.value >= from && OccursAt(text, part, r.value)
                        && forall k :: from <= k < r.value ==> !OccursAt(text, part, k)
    ensures r.None? ==> forall k :: from <= k ==> !OccursAt(text, part, k)
    decreases |text| - from
  {
    if OccursAt(text, part, from) then Some(from)
    else if from == |text| then None
    else FindFrom(text, part, from + 1)
  }

  function StripCr(line: string): string {
    if line != "" && line[|line| - 1] == '\r' then line[..|line| - 1] else line
  }

  function StripCrs(lines: seq<string>): (r: seq<string>)
    ensures |r| == |lines| && forall i :: 0 <= i < |r| ==> r[i] == StripCr(lines[i])
  {
    seq(|lines|, i requires 0 <= i < |lines| => StripCr(lines[i]))
  }

  /** Rust's `str::lines`: a line ends at `\n` or `\r\n`; an empty rest is no line, and only a
      terminated line loses its `\r`. */
  function Lines(s: string): seq<string> {
    var parts := Split(s, '\n');
    var last := parts[|parts| - 1];
    StripCrs(parts[..|parts| - 1]) + (if last == "" then [] else [last])
  }

  lemma LinesHaveNoNewline(s: string)
    ensures forall l :: l in Lines(s) ==> '\n' !in l
  {
    SplitPieces(s, '\n');
    var parts := Split(s, '\n');
    forall l | l in Lines(s)
      ensures '\n' !in l
    {
      var i :| 0 <= i < |Lines(s)| && Lines(s)[i] == l;
      assert parts[i] in parts;
    }
  }

  lemma LinesCons(line: string, rest: string)
    requires '\n' !in line
    ensures Lines(line + "\n" + rest) == [StripCr(line)] + Lines(rest)
  {
    SplitAfter(line, rest, '\n');
    var parts := Split(rest, '\n');
    assert line + ['\n'] + rest == line + "\n" + rest;
    assert ([line] + parts)[..|parts|] == [line] + parts[..|parts| - 1];
  }
}
