/** Python's sequence, string and integer primitives as the modelled code uses them:
    find, split, join, strip, words, decimal printing and int(). */
module Text {

  datatype Option<+T> = None | Some(value: T)

  // ---------- find ----------

  /** sub occurs in s at index i. */
  predicate At<T(==)>(s: seq<T>, sub: seq<T>, i: nat) {
    i + |sub| <= |s| && s[i..i + |sub|] == sub
  }

  /** s.find(sub, from): the first occurrence at or after from. */
  function FindFrom<T(==)>(s: seq<T>, sub: seq<T>, from: nat): (r: Option<nat>)
    ensures r.Some? ==> from <= r.value && r.value + |sub| <= |s|
    decreases |s| - from
  {
    if from + |sub| > |s| then None
    else if At(s, sub, from) then Some(from)
    else FindFrom(s, sub, from + 1)
  }

  function Find<T(==)>(s: seq<T>, sub: seq<T>): Option<nat> {
    FindFrom(s, sub, 0)
  }

  /** Python's "sub in s". */
  predicate Contains<T(==)>(s: seq<T>, sub: seq<T>) {
    Find(s, sub).Some?
  }

  /** What find() promises: the first occurrence, or none when there is none. */
  lemma {:induction false} FindMeans<T>(s: seq<T>, sub: seq<T>, from: nat)
    ensures var r := FindFrom(s, sub, from);
      if r.Some? then At(s, sub, r.value) && forall k: nat :: from <= k < r.value ==> !At(s, sub, k)
      else forall k: nat :: from <= k ==> !At(s, sub, k)
    decreases |s| - from
  {
    if from + |sub| <= |s| && !At(s, sub, from) {
      FindMeans(s, sub, from + 1);
    }
  }

  lemma FindIs<T>(s: seq<T>, sub: seq<T>, from: nat, i: nat)
    requires from <= i && At(s, sub, i)
    requires forall k: nat :: from <= k < i ==> !At(s, sub, k)
    ensures FindFrom(s, sub, from) == Some(i)
  {
    FindMeans(s, sub, from);
  }

  lemma AtAppend<T>(s: seq<T>, x: seq<T>, sub: seq<T>, i: nat)
    requires i + |sub| <= |s|
    ensures At(s + x, sub, i) == At(s, sub, i)
  {
    assert (s + x)[i..i + |sub|] == s[i..i + |sub|];
  }

  /** Bytes that arrive later never move an occurrence that was already found. */
  lemma FindStable<T>(s: seq<T>, x: seq<T>, sub: seq<T>, from: nat)
    requires FindFrom(s, sub, from).Some?
    ensures FindFrom(s + x, sub, from) == FindFrom(s, sub, from)
  {
    var i := FindFrom(s, sub, from).value;
    FindMeans(s, sub, from);
    AtAppend(s, x, sub, i);
    forall k: nat | from <= k < i ensures !At(s + x, sub, k) {
      AtAppend(s, x, sub, k);
    }
    FindIs(s + x, sub, from, i);
  }

  /** No proper prefix of sep is also a suffix of it: occurrences cannot overlap. */
  ghost predicate BorderFree<T>(sep: seq<T>) {
    |sep| > 0 && forall j :: 0 < j < |sep| ==> sep[..j] != sep[|sep| - j..]
  }

  lemma FirstBeforeSeparator<T>(a: seq<T>, sep: seq<T>, b: seq<T>)
    requires BorderFree(sep)
    requires Find(a, sep).None?
    ensures Find(a + sep + b, sep) == Some(|a|)
  {
    var s := a + sep + b;
    FindMeans(a, sep, 0);
    assert s[|a|..|a| + |sep|] == sep;
    forall k: nat | k < |a| ensures !At(s, sep, k) {
      if k + |sep| <= |a| {
        assert s == a + (sep + b);
        AtAppend(a, sep + b, sep, k);
      } else {
        var j := k + |sep| - |a|;
        assert sep[..j] != sep[|sep| - j..];
        if k + |sep| <= |s| {
          assert s[k..k + |sep|][|sep| - j..] == s[|a|..|a| + j] == sep[..j];
        }
      }
    }
    FindIs(s, sep, 0, |a|);
  }

  // ---------- split and join ----------

  /** s.split(sep) */
  function Split<T(==)>(s: seq<T>, sep: seq<T>): (parts: seq<seq<T>>)
    requires |sep| > 0
    ensures |parts| > 0
    decreases |s|
  {
    match Find(s, sep)
    case None => [s]
    case Some(i) => [s[..i]] + Split(s[i + |sep|..], sep)
  }

  /** sep.join(parts) */
  function Join<T>(parts: seq<seq<T>>, sep: seq<T>): seq<T> {
    if parts == [] then []
    else if |parts| == 1 then parts[0]
    else parts[0] + sep + Join(parts[1..], sep)
  }

  lemma SplitStep<T>(a: seq<T>, sep: seq<T>, x: seq<T>, i: nat)
    requires |sep| > 0 && Find(a, sep) == Some(i)
    ensures Split(a + x, sep) == [a[..i]] + Split(a[i + |sep|..] + x, sep)
  {
    FindStable(a, x, sep, 0);
    assert (a + x)[..i] == a[..i];
    assert (a + x)[i + |sep|..] == a[i + |sep|..] + x;
  }

  lemma SplitLast<T>(a: seq<T>, sep: seq<T>, b: seq<T>, x: seq<T>)
    requires BorderFree(sep) && x == sep + b && Find(a, sep).None?
    ensures Split(a + x, sep) == [a] + Split(b, sep)
  {
    assert a + x == a + sep + b;
    FirstBeforeSeparator(a, sep, b);
    assert (a + x)[..|a|] == a;
    assert (a + x)[|a| + |sep|..] == b;
  }

  lemma {:induction false} SplitTwo<T>(a: seq<T>, sep: seq<T>, b: seq<T>, x: seq<T>)
    requires BorderFree(sep) && x == sep + b
    ensures Split(a + x, sep) == Split(a, sep) + Split(b, sep)
    decreases |a|
  {
    hide FindFrom, Split;
    SplitOnce(a, sep);
    match Find(a, sep)
    case None =>
      SplitLast(a, sep, b, x);
    case Some(i) =>
      SplitStep(a, sep, x, i);
      var a' := a[i + |sep|..];
      SplitTwo(a', sep, b, x);
      var first, left, right := [a[..i]], Split(a', sep), Split(b, sep);
      assert first + (left + right) == (first + left) + right;
  }

  lemma SplitOnce<T>(s: seq<T>, sep: seq<T>)
    requires |sep| > 0
    ensures Find(s, sep).None? ==> Split(s, sep) == [s]
    ensures Find(s, sep).Some? ==>
      var i := Find(s, sep).value; i + |sep| <= |s| && Split(s, sep) == [s[..i]] + Split(s[i + |sep|..], sep)
  {
    hide FindFrom;
  }

  /** Splitting distributes over a separator written between two texts. */
  lemma SplitAround<T>(a: seq<T>, sep: seq<T>, b: seq<T>)
    requires BorderFree(sep)
    ensures Split(a + sep + b, sep) == Split(a, sep) + Split(b, sep)
  {
    SplitTwo(a, sep, b, sep + b);
    assert a + (sep + b) == a + sep + b;
  }

  /** Joining separator-free parts and splitting again gives the parts back. */
  lemma {:induction false} SplitJoin<T>(parts: seq<seq<T>>, sep: seq<T>)
    requires BorderFree(sep)
    requires parts != []
    requires forall p :: p in parts ==> Find(p, sep).None?
    ensures Split(Join(parts, sep), sep) == parts
    decreases |parts|
  {
    assert parts[0] in parts;
    if |parts| == 1 {
      assert Split(parts[0], sep) == [parts[0]];
    } else {
      SplitAround(parts[0], sep, Join(parts[1..], sep));
      SplitJoin(parts[1..], sep);
      assert parts == [parts[0]] + parts[1..];
    }
  }

  // ---------- strip, lower, words ----------

  /** str.isspace() on one character (Unicode White_Space plus the separators 1C to 1F). */
  predicate IsSpace(c: char) {
    var n := c as int;
    9 <= n <= 13 || 28 <= n <= 32 || n == 0x85 || n == 0xA0 || n == 0x1680
    || 0x2000 <= n <= 0x200A || n == 0x2028 || n == 0x2029 || n == 0x202F || n == 0x205F || n == 0x3000
  }

  function LStrip(s: string): string {
    if s != "" && IsSpace(s[0]) then LStrip(s[1..]) else s
  }

  function RStrip(s: string): string {
    if s != "" && IsSpace(s[|s| - 1]) then RStrip(s[..|s| - 1]) else s
  }

  function Strip(s: string): string { RStrip(LStrip(s)) }

  /** Nothing for strip() to remove. */
  predicate Trimmed(s: string) {
    s == "" || (!IsSpace(s[0]) && !IsSpace(s[|s| - 1]))
  }

  lemma LStripStarts(s: string)
    ensures LStrip(s) == "" || !IsSpace(LStrip(s)[0])
  {}

  lemma RStripKeepsFirst(s: string)
    requires s != "" && !IsSpace(s[0])
    ensures RStrip(s) != "" && RStrip(s)[0] == s[0] && !IsSpace(RStrip(s)[|RStrip(s)| - 1])
  {}

  /** strip() always leaves a trimmed text, and leaves trimmed texts alone. */
  lemma StripTrims(s: string)
    ensures Trimmed(Strip(s))
    ensures Trimmed(s) ==> Strip(s) == s
  {
    LStripStarts(s);
    if LStrip(s) != "" { RStripKeepsFirst(LStrip(s)); }
  }

  /** lstrip() removes exactly the leading spaces. */
  lemma {:induction false} LStripMeans(s: string)
    ensures var n := |s| - |LStrip(s)|;
      0 <= n && LStrip(s) == s[n..] && (forall i :: 0 <= i < n ==> IsSpace(s[i])) && (n < |s| ==> !IsSpace(s[n]))
  {
    if s != "" && IsSpace(s[0]) { LStripMeans(s[1..]); }
  }

  /** Nothing is left of a text of spaces, and of no other text. */
  lemma StripBlank(s: string)
    ensures Strip(s) == "" <==> forall i :: 0 <= i < |s| ==> IsSpace(s[i])
  {
    LStripMeans(s);
    if LStrip(s) != "" { RStripKeepsFirst(LStrip(s)); }
  }

  /** What bytes.strip() removes. */
  predicate IsByteSpace(c: char) { 9 <= c as int <= 13 || c == ' ' }

  function ByteLStrip(s: string): string {
    if s != "" && IsByteSpace(s[0]) then ByteLStrip(s[1..]) else s
  }

  function ByteRStrip(s: string): string {
    if s != "" && IsByteSpace(s[|s| - 1]) then ByteRStrip(s[..|s| - 1]) else s
  }

  function ByteStrip(s: string): string { ByteRStrip(ByteLStrip(s)) }

  lemma ByteStripTrims(s: string)
    requires s != "" && !IsByteSpace(s[0]) && !IsByteSpace(s[|s| - 1])
    ensures ByteStrip(s) == s
  {}

  function LowerChar(c: char): char {
    if 'A' <= c <= 'Z' then ((c as int) + 32) as char else c
  }

  function Lower(s: string): string {
    if s == "" then "" else [LowerChar(s[0])] + Lower(s[1..])
  }

  /** A capital becomes the small letter at its place in the alphabet, and everything else stays. */
  lemma {:induction false} LowerMeans(s: string)
    ensures |Lower(s)| == |s|
    ensures forall i :: 0 <= i < |s| ==>
      if 'A' <= s[i] <= 'Z' then 'a' <= Lower(s)[i] <= 'z' && Lower(s)[i] - 'a' == s[i] - 'A' else Lower(s)[i] == s[i]
  {
    if s != "" { LowerMeans(s[1..]); }
  }

  lemma LowerKeeps(s: string)
    requires forall i :: 0 <= i < |s| ==> !('A' <= s[i] <= 'Z')
    ensures Lower(s) == s
  {
    hide Lower;
    LowerMeans(s);
  }

  lemma {:induction false} LowerTwice(s: string)
    ensures Lower(Lower(s)) == Lower(s)
  {
    if s != "" { LowerTwice(s[1..]); }
  }

  /** s.split() without a separator: the maximal runs of non-space characters. */
  function Words(s: string): seq<string> { WordsFrom(s, "") }

  function WordsFrom(s: string, current: string): seq<string>
    decreases |s|
  {
    if s == "" then (if current == "" then [] else [current])
    else if IsSpace(s[0]) then (if current == "" then [] else [current]) + WordsFrom(s[1..], "")
    else WordsFrom(s[1..], current + [s[0]])
  }

  /** w stands in s as a word: no space in it, and a space or an end on either side. */
  ghost predicate WordAt(s: string, w: string, i: nat) {
    At(s, w, i) && w != "" && (forall c :: c in w ==> !IsSpace(c))
    && (i == 0 || IsSpace(s[i - 1])) && (i + |w| == |s| || IsSpace(s[i + |w|]))
  }

  /** split() gives the words of the text. */
  lemma WordsMean(s: string, w: string)
    ensures w in Words(s) <==> exists i: nat :: WordAt(s, w, i)
  {
    WordsFromMean(s, 0, 0, w);
    assert s[0..] == s && s[0..0] == "";
  }

  /** The words from position to on, where the text from there back to from is a word begun. */
  lemma {:induction false} WordsFromMean(s: string, from: nat, to: nat, w: string)
    requires from <= to <= |s| && (forall k :: from <= k < to ==> !IsSpace(s[k])) && (from == 0 || IsSpace(s[from - 1]))
    ensures w in WordsFrom(s[to..], s[from..to]) <==> exists i: nat :: from <= i && WordAt(s, w, i)
    decreases |s| - to
  {
    var current := s[from..to];
    if to == |s| {
      WordHere(s, from, to, w);
    } else {
      assert s[to..][1..] == s[to + 1..] && s[to..][0] == s[to];
      if IsSpace(s[to]) {
        WordsFromMean(s, to + 1, to + 1, w);
        assert s[to + 1..to + 1] == "";
        WordHere(s, from, to, w);
      } else {
        WordsFromMean(s, from, to + 1, w);
        assert current + [s[to]] == s[from..to + 1];
      }
    }
  }

  /** The only word that can start before the space or the end at position to is the one begun. */
  lemma WordHere(s: string, from: nat, to: nat, w: string)
    requires from <= to <= |s| && (forall k :: from <= k < to ==> !IsSpace(s[k])) && (from == 0 || IsSpace(s[from - 1]))
    requires to == |s| || IsSpace(s[to])
    ensures forall i: nat :: from <= i <= to && WordAt(s, w, i) ==> i == from && w == s[from..to]
    ensures from < to ==> WordAt(s, s[from..to], from)
  {
    forall i: nat | from <= i <= to && WordAt(s, w, i) ensures i == from && w == s[from..to] {
      assert forall k :: 0 <= k < |w| ==> w[k] == s[i + k] && w[k] in w;
      assert w[0] == s[i];
      assert forall m :: i <= m < i + |w| ==> s[m] == w[m - i] && !IsSpace(s[m]);
    }
  }

  // ---------- decimal numbers ----------

  predicate IsDigit(c: char) { '0' <= c <= '9' }

  function DigitChar(d: nat): (c: char)
    requires d < 10
    ensures IsDigit(c) && c as int - '0' as int == d
  {
    (('0' as int) + d) as char
  }

  /** str(n) for a non-negative n. */
  function Dec(n: nat): (s: string)
    ensures s != "" && forall c :: c in s ==> IsDigit(c)
  {
    if n < 10 then [DigitChar(n)] else Dec(n / 10) + [DigitChar(n % 10)]
  }

  /** The digits part of int(): decimal digits with single underscores between them. */
  function Digits(s: string): Option<nat>
    decreases |s|
  {
    if s == "" || !IsDigit(s[|s| - 1]) then None
    else
      var d: nat := s[|s| - 1] as int - '0' as int;
      if |s| == 1 then Some(d)
      else
        var p := s[..|s| - 1];
        var q := if p[|p| - 1] == '_' then p[..|p| - 1] else p;
        match Digits(q)
        case None => None
        case Some(v) => Some(10 * v + d)
  }

  function Signed(sign: int, magnitude: Option<nat>): Option<int> {
    if magnitude.None? then None else Some(sign * magnitude.value)
  }

  function IntOf(t: string): Option<int> {
    if t == "" then None
    else if t[0] == '-' then Signed(-1, Digits(t[1..]))
    else if t[0] == '+' then Signed(1, Digits(t[1..]))
    else Signed(1, Digits(t))
  }

  /** Python's int(s) of a text; None stands for ValueError. */
  function PyInt(s: string): Option<int> { IntOf(Strip(s)) }

  /** Python's int(b) of bytes, which skips ASCII white space only. */
  function ByteInt(s: string): Option<int> { IntOf(ByteStrip(s)) }

  lemma {:induction false} DigitsDec(n: nat)
    ensures Digits(Dec(n)) == Some(n)
  {
    if n >= 10 {
      DigitsDec(n / 10);
      var s := Dec(n);
      var p := Dec(n / 10);
      assert s[..|s| - 1] == p;
      assert p[|p| - 1] in p;
    }
  }

  /** int(str(n)) == n. */
  lemma PyIntDec(n: nat)
    ensures PyInt(Dec(n)) == Some(n)
  {
    hide Digits, Dec, Strip;
    var s := Dec(n);
    assert s[0] in s && s[|s| - 1] in s;
    StripTrims(s);
    DigitsDec(n);
  }

  /** int(str(n).encode()) == n. */
  lemma ByteIntDec(n: nat)
    ensures ByteInt(Dec(n)) == Some(n)
  {
    hide Digits, Dec, ByteStrip;
    var s := Dec(n);
    assert s[0] in s && s[|s| - 1] in s;
    ByteStripTrims(s);
    DigitsDec(n);
  }

  /** A text with no occurrence of a character has none of the one-character separator. */
  lemma NoCharNoFind<T>(s: seq<T>, c: T)
    requires c !in s
    ensures Find(s, [c]).None?
  {
    forall k: nat | k < |s| ensures !At(s, [c], k) {
      assert s[k..k + 1][0] == s[k];
    }
    FindMeans(s, [c], 0);
  }
}
