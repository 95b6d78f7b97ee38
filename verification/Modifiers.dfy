/** app.py, _apply_output_modifier: the include, exclude, begin and section output modifiers,
    on the list of lines, for an arbitrary line predicate. */
module Modifiers {
  import opened Text

  type Hit = string -> bool

  function Indent(line: string): nat {
    LStripShorter(line);
    |line| - |LStrip(line)|
  }

  lemma LStripShorter(line: string)
    ensures |LStrip(line)| <= |line|
  {}

  /** The inner loop's guard: a non-blank line indented more than the matched one. */
  predicate Continues(line: string, indent: nat) {
    Strip(line) != "" && Indent(line) > indent
  }

  /** How many leading lines belong to a section opened at this indentation. */
  function BodyLength(lines: seq<string>, indent: nat): (n: nat)
    ensures n <= |lines|
    ensures forall i :: 0 <= i < n ==> Continues(lines[i], indent)
    ensures n < |lines| ==> !Continues(lines[n], indent)
  {
    if lines == [] || !Continues(lines[0], indent) then 0 else 1 + BodyLength(lines[1..], indent)
  }

  function Sections(lines: seq<string>, hit: Hit): (out: seq<string>)
    decreases |lines|
  {
    if lines == [] then []
    else if !hit(lines[0]) then Sections(lines[1..], hit)
    else
      var n := BodyLength(lines[1..], Indent(lines[0]));
      [lines[0]] + lines[1..][..n] + Sections(lines[1..][n..], hit)
  }

  /** The lines on which the predicate has the wanted value: include when true, exclude when false. */
  function Filter(lines: seq<string>, hit: Hit, wanted: bool): seq<string> {
    if lines == [] then []
    else if hit(lines[0]) == wanted then [lines[0]] + Filter(lines[1..], hit, wanted)
    else Filter(lines[1..], hit, wanted)
  }

  function FirstHit(lines: seq<string>, hit: Hit): (n: nat)
    ensures n <= |lines|
  {
    if lines == [] || hit(lines[0]) then 0 else 1 + FirstHit(lines[1..], hit)
  }

  lemma SectionsAt(lines: seq<string>, i: nat, hit: Hit)
    requires i < |lines|
    ensures !hit(lines[i]) ==> Sections(lines[i..], hit) == Sections(lines[i + 1..], hit)
    ensures hit(lines[i]) ==>
      var stop := i + 1 + BodyLength(lines[i + 1..], Indent(lines[i]));
      Sections(lines[i..], hit) == [lines[i]] + lines[i + 1..stop] + Sections(lines[stop..], hit)
  {
    hide BodyLength, Indent;
    var rest := lines[i + 1..];
    assert lines[i..][1..] == rest;
    if hit(lines[i]) {
      var n := BodyLength(rest, Indent(lines[i]));
      assert rest[..n] == lines[i + 1..i + 1 + n] && rest[n..] == lines[i + 1 + n..];
    }
  }

  /** The inner loop stops exactly where the body ends. */
  lemma BodyEnds(lines: seq<string>, start: nat, indent: nat)
    requires start <= |lines|
    ensures var stop := start + BodyLength(lines[start..], indent);
      (forall i :: start <= i < stop ==> Continues(lines[i], indent)) && (stop < |lines| ==> !Continues(lines[stop], indent))
  {
    hide Continues;
    var rest := lines[start..];
    assert forall i :: start <= i < |lines| ==> lines[i] == rest[i - start];
  }

  /** kind == 'section': two nested loops over one index. */
  method Section(lines: seq<string>, hit: Hit) returns (out: seq<string>)
    ensures out == Sections(lines, hit)
  {
    hide Sections, BodyLength, Indent, Text.Strip;
    out := [];
    var i := 0;
    assert lines[0..] == lines;
    while i < |lines|
      invariant 0 <= i <= |lines|
      invariant out + Sections(lines[i..], hit) == Sections(lines, hit)
    {
      SectionsAt(lines, i, hit);
      if !hit(lines[i]) {
        i := i + 1;
        continue;
      }
      ghost var stop := i + 1 + BodyLength(lines[i + 1..], Indent(lines[i]));
      BodyEnds(lines, i + 1, Indent(lines[i]));
      ghost var start, head, before := i + 1, out + [lines[i]], out;
      out := out + [lines[i]];
      var indent := Indent(lines[i]);
      i := i + 1;
      while i < |lines|
        invariant start <= i <= stop <= |lines|
        invariant out == head + lines[start..i]
        invariant i == stop < |lines| ==> !Continues(lines[i], indent)
      {
        var nxt := lines[i];
        if Strip(nxt) == "" { break; }
        if Indent(nxt) <= indent { break; }
        out := out + [nxt];
        i := i + 1;
      }
      assert i == stop;
      Regroup(before, [lines[start - 1]], lines[start..i], Sections(lines[i..], hit));
    }
    assert lines[|lines|..] == [] && Sections([], hit) == [] by { NoSections(hit); }
  }

  lemma Regroup<T>(a: seq<T>, b: seq<T>, c: seq<T>, d: seq<T>)
    ensures a + b + c + d == a + (b + c + d)
  {}

  lemma Regather<T>(a: seq<T>, n: nat)
    requires 0 < n <= |a|
    ensures [a[0]] + a[1..n] + a[n..] == a
  {}

  lemma NoSections(hit: Hit)
    ensures Sections([], hit) == []
  {}

  /** kind == 'include' and kind == 'exclude'. */
  method Select(lines: seq<string>, hit: Hit, wanted: bool) returns (out: seq<string>)
    ensures out == Filter(lines, hit, wanted)
  {
    out := [];
    assert lines[0..] == lines;
    for i := 0 to |lines|
      invariant out + Filter(lines[i..], hit, wanted) == Filter(lines, hit, wanted)
    {
      assert lines[i..][1..] == lines[i + 1..];
      if hit(lines[i]) == wanted { out := out + [lines[i]]; }
    }
  }

  /** kind == 'begin': the lines from the first matching one on. */
  method Begin(lines: seq<string>, hit: Hit) returns (out: seq<string>)
    ensures out == lines[FirstHit(lines, hit)..]
  {
    assert lines[0..] == lines;
    for i := 0 to |lines|
      invariant FirstHit(lines, hit) == i + FirstHit(lines[i..], hit)
    {
      assert lines[i..][0] == lines[i] && lines[i..][1..] == lines[i + 1..];
      if hit(lines[i]) { return lines[i..]; }
    }
    return [];
  }

  /** begin drops exactly the lines before the first matching one. */
  lemma {:induction false} BeginMeans(lines: seq<string>, hit: Hit)
    ensures var n := FirstHit(lines, hit);
      (forall i :: 0 <= i < n ==> !hit(lines[i])) && (n < |lines| ==> hit(lines[n]))
  {
    if lines != [] && !hit(lines[0]) { BeginMeans(lines[1..], hit); }
  }

  // ---------- which lines section keeps ----------

  predicate Blank(line: string) { forall i :: 0 <= i < |line| ==> IsSpace(line[i]) }

  /** The indentation is the number of leading spaces. */
  lemma IndentMeans(line: string)
    ensures var n := Indent(line);
      n <= |line| && (forall i :: 0 <= i < n ==> IsSpace(line[i])) && (n < |line| ==> !IsSpace(line[n]))
  {
    LStripMeans(line);
  }

  /** Line k lies below the matching line j: neither it nor a line in between is blank or indented
      no more than line j. */
  ghost predicate Below(lines: seq<string>, hit: Hit, j: nat, k: nat) {
    j <= k < |lines| && hit(lines[j]) && forall i :: j < i <= k ==> !Blank(lines[i]) && Indent(lines[i]) > Indent(lines[j])
  }

  ghost predicate Kept(lines: seq<string>, hit: Hit, k: nat) { exists j :: 0 <= j <= k && Below(lines, hit, j, k) }

  /** No section that a line above opens reaches line i. */
  ghost predicate Fresh(lines: seq<string>, hit: Hit, i: nat) { forall j :: 0 <= j < i ==> !Below(lines, hit, j, i) }

  /** Where the section opened by line i ends. */
  function StopOf(lines: seq<string>, i: nat): (stop: nat)
    requires i < |lines|
    ensures i < stop <= |lines|
  {
    i + 1 + BodyLength(lines[i + 1..], Indent(lines[i]))
  }

  lemma SectionReach(lines: seq<string>, hit: Hit, i: nat)
    requires i < |lines| && hit(lines[i]) && Fresh(lines, hit, i)
    ensures var stop := StopOf(lines, i);
      (forall k :: i <= k < stop ==> Below(lines, hit, i, k)) && (stop < |lines| ==> Fresh(lines, hit, stop))
  {
    hide Blank, Indent, Text.Strip;
    var stop := StopOf(lines, i);
    BodyEnds(lines, i + 1, Indent(lines[i]));
    forall k | 0 <= k < |lines| ensures Strip(lines[k]) == "" <==> Blank(lines[k]) { BlankMeans(lines[k]); }
    if stop < |lines| {
      assert !Continues(lines[stop], Indent(lines[i]));
      forall j: nat | j < stop ensures !Below(lines, hit, j, stop) {
        if j < i {
          BelowPrefix(lines, hit, j, i, stop);
        } else {
          assert j > i ==> Below(lines, hit, i, j) && Indent(lines[j]) > Indent(lines[i]);
        }
      }
    }
  }

  lemma BelowPrefix(lines: seq<string>, hit: Hit, j: nat, i: nat, k: nat)
    requires j <= i <= k
    ensures Below(lines, hit, j, k) ==> Below(lines, hit, j, i)
  {
    hide Blank, Indent;
  }

  lemma BlankMeans(line: string)
    ensures Strip(line) == "" <==> Blank(line)
  {
    StripBlank(line);
  }

  /** The numbers of the lines that section takes from line i on. */
  function Taken(lines: seq<string>, hit: Hit, i: nat): seq<nat>
    requires i <= |lines|
    decreases |lines| - i
  {
    if i == |lines| then []
    else if !hit(lines[i]) then Taken(lines, hit, i + 1)
    else seq(StopOf(lines, i) - i, k requires 0 <= k => i + k) + Taken(lines, hit, StopOf(lines, i))
  }

  /** The lines with these numbers. */
  function LinesAt(lines: seq<string>, idx: seq<nat>): seq<string> {
    seq(|idx|, k requires 0 <= k < |idx| => if idx[k] < |lines| then lines[idx[k]] else "")
  }

  lemma {:induction false} SectionsTake(lines: seq<string>, hit: Hit, i: nat)
    requires i <= |lines|
    ensures Sections(lines[i..], hit) == LinesAt(lines, Taken(lines, hit, i))
    decreases |lines| - i
  {
    hide Sections, Indent, BodyLength;
    if i == |lines| {
      NoSections(hit);
      assert lines[i..] == [];
    } else {
      SectionsAt(lines, i, hit);
      if !hit(lines[i]) {
        SectionsTake(lines, hit, i + 1);
      } else {
        var stop := StopOf(lines, i);
        SectionsTake(lines, hit, stop);
        var head := seq(stop - i, k requires 0 <= k => i + k);
        assert LinesAt(lines, head) == [lines[i]] + lines[i + 1..stop];
        assert LinesAt(lines, head + Taken(lines, hit, stop)) == LinesAt(lines, head) + LinesAt(lines, Taken(lines, hit, stop));
      }
    }
  }

  ghost predicate Rising(idx: seq<nat>, from: nat, to: nat) {
    (forall a, b :: 0 <= a < b < |idx| ==> idx[a] < idx[b]) && forall a :: 0 <= a < |idx| ==> from <= idx[a] < to
  }

  lemma RisingAppend(x: seq<nat>, y: seq<nat>, from: nat, mid: nat, to: nat)
    requires from <= mid <= to && Rising(x, from, mid) && Rising(y, mid, to)
    ensures Rising(x + y, from, to)
  {}

  lemma {:induction false} TakenRises(lines: seq<string>, hit: Hit, i: nat)
    requires i <= |lines|
    ensures Rising(Taken(lines, hit, i), i, |lines|)
    decreases |lines| - i
  {
    hide StopOf;
    if i < |lines| {
      if hit(lines[i]) {
        var stop := StopOf(lines, i);
        TakenRises(lines, hit, stop);
        RisingAppend(seq(stop - i, k requires 0 <= k => i + k), Taken(lines, hit, stop), i, stop, |lines|);
      } else {
        TakenRises(lines, hit, i + 1);
      }
    }
  }

  lemma {:induction false} TakenAre(lines: seq<string>, hit: Hit, i: nat)
    requires i <= |lines| && (i < |lines| ==> Fresh(lines, hit, i))
    ensures forall k: nat :: k in Taken(lines, hit, i) <==> i <= k < |lines| && Kept(lines, hit, k)
    decreases |lines| - i
  {
    hide Below, StopOf;
    if i < |lines| {
      BelowEnds(lines, hit, i);
      if !hit(lines[i]) {
        TakenAre(lines, hit, i + 1);
        assert !Kept(lines, hit, i);
      } else {
        var stop := StopOf(lines, i);
        SectionReach(lines, hit, i);
        TakenAre(lines, hit, stop);
        var head := seq(stop - i, k requires 0 <= k => i + k);
        assert Taken(lines, hit, i) == head + Taken(lines, hit, stop);
        assert forall k: nat :: k in head <==> i <= k < stop by { RangeOf(i, stop); }
        forall k | i <= k < stop ensures Kept(lines, hit, k) { assert Below(lines, hit, i, k); }
      }
    }
  }

  lemma RangeOf(i: nat, stop: nat)
    requires i <= stop
    ensures var head := seq(stop - i, k requires 0 <= k => i + k); forall k: nat :: k in head <==> i <= k < stop
  {
    var head := seq(stop - i, k requires 0 <= k => i + k);
    forall k | i <= k < stop ensures k in head { assert head[k - i] == k; }
  }

  lemma BelowEnds(lines: seq<string>, hit: Hit, i: nat)
    requires i < |lines| && Fresh(lines, hit, i)
    ensures !hit(lines[i]) && i + 1 < |lines| ==> Fresh(lines, hit, i + 1)
    ensures !hit(lines[i]) ==> !Below(lines, hit, i, i)
  {
    var next := i + 1;
    forall j: nat | j <= i ensures !hit(lines[i]) ==> !Below(lines, hit, j, next) { BelowPrefix(lines, hit, j, i, next); }
  }

  /** section keeps, in order, exactly the matching lines and the lines below one. */
  lemma SectionKeepsExactly(lines: seq<string>, hit: Hit) returns (idx: seq<nat>)
    ensures Rising(idx, 0, |lines|)
    ensures forall k: nat :: k in idx <==> k < |lines| && Kept(lines, hit, k)
    ensures Sections(lines, hit) == LinesAt(lines, idx)
  {
    hide Sections, Kept;
    idx := Taken(lines, hit, 0);
    SectionsTake(lines, hit, 0);
    TakenAre(lines, hit, 0);
    TakenRises(lines, hit, 0);
    assert lines[0..] == lines;
  }

  // ---------- section is idempotent ----------

  lemma {:induction false} BodyLengthAppend(body: seq<string>, rest: seq<string>, indent: nat)
    requires forall l :: l in body ==> Continues(l, indent)
    ensures BodyLength(body + rest, indent) == |body| + BodyLength(rest, indent)
    decreases |body|
  {
    if body == [] {
      assert body + rest == rest;
    } else {
      assert body[0] in body;
      assert (body + rest)[1..] == body[1..] + rest;
      BodyLengthAppend(body[1..], rest, indent);
    }
  }

  /** Whatever prefix an enclosing section may absorb, what is left is unchanged by section. */
  ghost predicate Stable(out: seq<string>, hit: Hit) {
    forall indent: nat :: Sections(out[BodyLength(out, indent)..], hit) == out[BodyLength(out, indent)..]
  }

  lemma StableAt(out: seq<string>, indent: nat, hit: Hit)
    requires Stable(out, hit)
    ensures Sections(out[BodyLength(out, indent)..], hit) == out[BodyLength(out, indent)..]
  {}

  /** One section in front of a stable output is unchanged by section. */
  lemma SectionOfBlock(head: string, body: seq<string>, rest: seq<string>, hit: Hit)
    requires hit(head) && Stable(rest, hit)
    requires forall l :: l in body ==> Continues(l, Indent(head))
    ensures Sections([head] + (body + rest), hit) == [head] + (body + rest)
  {
    hide Continues, Indent, BodyLength, Stable, Sections;
    var tail := body + rest;
    var out := [head] + tail;
    var k := BodyLength(rest, Indent(head));
    BodyLengthAppend(body, rest, Indent(head));
    assert out[1..] == tail && out[0] == head;
    assert tail[|body| + k..] == rest[k..];
    StableAt(rest, Indent(head), hit);
    SectionsAt(out, 0, hit);
    var stop := 1 + |body| + k;
    assert out[0..] == out && out[stop..] == rest[k..] && out[0 + 1..] == tail;
    Regather(out, stop);
  }

  lemma StableCons(head: string, body: seq<string>, rest: seq<string>, hit: Hit)
    requires hit(head) && Stable(rest, hit)
    requires forall l :: l in body ==> Continues(l, Indent(head))
    ensures Stable([head] + (body + rest), hit)
  {
    hide Sections, Indent, Text.Strip;
    var out := [head] + (body + rest);
    SectionOfBlock(head, body, rest, hit);
    forall indent: nat ensures Sections(out[BodyLength(out, indent)..], hit) == out[BodyLength(out, indent)..] {
      if Continues(head, indent) {
        var absorbed := [head] + body;
        BodyLengthAppend(absorbed, rest, indent);
        assert absorbed + rest == out;
        assert out[|absorbed| + BodyLength(rest, indent)..] == rest[BodyLength(rest, indent)..];
      } else {
        assert out[0] == head && out[0..] == out;
      }
    }
  }

  lemma NothingStable(hit: Hit)
    ensures Stable([], hit)
  {}

  lemma {:induction false} SectionsStable(lines: seq<string>, hit: Hit)
    ensures Stable(Sections(lines, hit), hit)
    decreases |lines|
  {
    hide Stable, Indent, Continues;
    if lines == [] {
      NothingStable(hit);
    } else if !hit(lines[0]) {
      SectionsStable(lines[1..], hit);
    } else {
      var rest := lines[1..];
      var n := BodyLength(rest, Indent(lines[0]));
      var tail := Sections(rest[n..], hit);
      SectionsStable(rest[n..], hit);
      StableCons(lines[0], rest[..n], tail, hit);
      assert [lines[0]] + (rest[..n] + tail) == [lines[0]] + rest[..n] + tail;
    }
  }

  /** Piping the output of "section" through the same "section" again changes nothing. */
  lemma SectionIdempotent(lines: seq<string>, hit: Hit)
    ensures Sections(Sections(lines, hit), hit) == Sections(lines, hit)
  {
    hide Sections, Indent, Text.Strip;
    var out := Sections(lines, hit);
    SectionsStable(lines, hit);
    var indent := if out == [] then 0 else Indent(out[0]);
    assert BodyLength(out, indent) == 0 && out[0..] == out;
  }

  // ---------- order is kept, nothing is invented or lost ----------

  ghost predicate Subsequence(a: seq<string>, b: seq<string>) {
    if a == [] then true
    else if b == [] then false
    else (a[0] == b[0] && Subsequence(a[1..], b[1..])) || Subsequence(a, b[1..])
  }

  lemma {:induction false} SubsequencePrefix(p: seq<string>, a: seq<string>, b: seq<string>)
    requires Subsequence(a, b)
    ensures Subsequence(p + a, p + b)
    decreases |p|
  {
    if p == [] {
      assert p + a == a && p + b == b;
    } else {
      SubsequencePrefix(p[1..], a, b);
      assert (p + a)[1..] == p[1..] + a && (p + b)[1..] == p[1..] + b;
    }
  }

  lemma {:induction false} SectionIsSubsequence(lines: seq<string>, hit: Hit)
    ensures Subsequence(Sections(lines, hit), lines)
    decreases |lines|
  {
    if lines != [] {
      var rest := lines[1..];
      if !hit(lines[0]) {
        SectionIsSubsequence(rest, hit);
      } else {
        var n := BodyLength(rest, Indent(lines[0]));
        SectionIsSubsequence(rest[n..], hit);
        var p := [lines[0]] + rest[..n];
        SubsequencePrefix(p, Sections(rest[n..], hit), rest[n..]);
        assert p + rest[n..] == lines;
      }
    }
  }

  /** Every matching line is in the section output: it can only be skipped by being absorbed. */
  lemma {:induction false} SectionKeepsHits(lines: seq<string>, hit: Hit)
    ensures Filter(Sections(lines, hit), hit, true) == Filter(lines, hit, true)
    decreases |lines|
  {
    if lines != [] {
      var rest := lines[1..];
      if !hit(lines[0]) {
        SectionKeepsHits(rest, hit);
      } else {
        var n := BodyLength(rest, Indent(lines[0]));
        SectionKeepsHits(rest[n..], hit);
        var p := [lines[0]] + rest[..n];
        FilterAppend(p, Sections(rest[n..], hit), hit);
        FilterAppend(p, rest[n..], hit);
        assert p + rest[n..] == lines;
      }
    }
  }

  lemma {:induction false} FilterAppend(a: seq<string>, b: seq<string>, hit: Hit)
    ensures Filter(a + b, hit, true) == Filter(a, hit, true) + Filter(b, hit, true)
    decreases |a|
  {
    if a == [] {
      assert a + b == b;
    } else {
      FilterAppend(a[1..], b, hit);
      assert (a + b)[1..] == a[1..] + b && (a + b)[0] == a[0];
      var x, y, z := [a[0]], Filter(a[1..], hit, true), Filter(b, hit, true);
      assert x + (y + z) == (x + y) + z;
    }
  }

  /** Puts the lines of include and exclude back in their original places. */
  function Weave(lines: seq<string>, hit: Hit, included: seq<string>, excluded: seq<string>): seq<string> {
    if lines == [] then included + excluded
    else if hit(lines[0]) && included != [] then [included[0]] + Weave(lines[1..], hit, included[1..], excluded)
    else if !hit(lines[0]) && excluded != [] then [excluded[0]] + Weave(lines[1..], hit, included, excluded[1..])
    else []
  }

  /** include and exclude split the lines in two: together, in order, they are the input. */
  lemma {:induction false} IncludeExcludeComplement(lines: seq<string>, hit: Hit)
    ensures Weave(lines, hit, Filter(lines, hit, true), Filter(lines, hit, false)) == lines
    decreases |lines|
  {
    if lines != [] {
      IncludeExcludeComplement(lines[1..], hit);
    }
  }
}
