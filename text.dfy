/**
 * The few JavaScript string operations the handlers rely on: `trim`,
 * `split(",")`, `join(sep)` and the substring test behind a `LIKE '%term%'`.
 */
module Text {

  /** The characters String.prototype.trim removes: ECMAScript WhiteSpace and LineTerminator. */
  predicate IsSpace(c: char) {
    || '\t' <= c <= '\r'                    // tab, line feed, vertical tab, form feed, carriage return
    || c == ' ' || c == '\U{00A0}' || c == '\U{1680}'
    || '\U{2000}' <= c <= '\U{200A}'
    || c == '\U{2028}' || c == '\U{2029}' || c == '\U{202F}' || c == '\U{205F}'
    || c == '\U{3000}' || c == '\U{FEFF}'
  }

  /** Neither end of s is white space. */
  predicate IsTrimmed(s: string) {
    s == [] || (!IsSpace(s[0]) && !IsSpace(s[|s| - 1]))
  }

  predicate AllSpace(s: string) {
    forall k :: 0 <= k < |s| ==> IsSpace(s[k])
  }

  lemma AllSpaceAppend(a: string, b: string)
    requires AllSpace(a) && AllSpace(b)
    ensures AllSpace(a + b)
  {
    forall k | 0 <= k < |a + b| ensures IsSpace((a + b)[k]) {
      if k < |a| {
        assert (a + b)[k] == a[k];
      } else {
        assert (a + b)[k] == b[k - |a|];
      }
    }
  }

  /** r sits at position i of s with only white space around it. */
  predicate TrimmedAt(s: string, r: string, i: int) {
    0 <= i <= |s| - |r| && s[i..i + |r|] == r && AllSpace(s[..i]) && AllSpace(s[i + |r|..])
  }

  function TrimStart(s: string): (r: string)
    ensures |r| <= |s| && r == s[|s| - |r|..] && AllSpace(s[..|s| - |r|])
    ensures r == [] || !IsSpace(r[0])
  {
    if s != [] && IsSpace(s[0]) then
      var tail := s[1..];
      var r := TrimStart(tail);
      assert s[..|s| - |r|] == [s[0]] + tail[..|tail| - |r|];
      AllSpaceAppend([s[0]], tail[..|tail| - |r|]);
      assert tail[|tail| - |r|..] == s[|s| - |r|..];
      r
    else
      s
  }

  function TrimEnd(s: string): (r: string)
    ensures |r| <= |s| && r == s[..|r|] && AllSpace(s[|r|..])
    ensures r == [] || !IsSpace(r[|r| - 1])
  {
    if s != [] && IsSpace(s[|s| - 1]) then
      var init := s[..|s| - 1];
      var r := TrimEnd(init);
      assert s[|r|..] == init[|r|..] + [s[|s| - 1]];
      AllSpaceAppend(init[|r|..], [s[|s| - 1]]);
      assert init[..|r|] == s[..|r|];
      r
    else
      s
  }

  /** String.prototype.trim: white space removed from both ends and nothing else. */
  function Trim(s: string): (r: string)
    ensures IsTrimmed(r)
    ensures TrimmedAt(s, r, |s| - |TrimStart(s)|)
  {
    var a := TrimStart(s);
    var r := TrimEnd(a);
    var i := |s| - |a|;
    assert s[i + |r|..] == a[|r|..];
    assert s[i..i + |r|] == a[..|r|];
    assert TrimmedAt(s, r, i);
    assert r != [] ==> r[0] == a[0];
    r
  }

  /** Trimming adds no character. */
  lemma {:induction false} TrimInside(s: string)
    ensures forall c :: c in Trim(s) ==> c in s
  {
    var r := Trim(s);
    var i := |s| - |TrimStart(s)|;
    forall c | c in r ensures c in s {
      var k :| 0 <= k < |r| && r[k] == c;
      assert r[k] == s[i + k];
    }
  }

  /** Trimming a string that is already trimmed gives it back. */
  lemma {:induction false} TrimTrimmed(s: string)
    requires IsTrimmed(s)
    ensures Trim(s) == s
  {
  }

  /** A trimmed string is empty exactly when the input was all white space. */
  lemma {:induction false} TrimEmptyIffAllSpace(s: string)
    ensures Trim(s) == "" <==> AllSpace(s)
  {
    if Trim(s) == "" {
      // TrimStart then consumed the whole string.
      var i := |s| - |TrimStart(s)|;
      assert TrimStart(s) == "";
      forall k | 0 <= k < |s| ensures IsSpace(s[k]) {
        assert s[..i][k] == s[k];
      }
    }
  }

  /** A leading space before a trimmed word is dropped by trim. */
  lemma {:induction false} TrimLeadingSpace(s: string)
    requires IsTrimmed(s) && s != []
    ensures Trim(" " + s) == s
  {
    var w := " " + s;
    assert w[0] == ' ' && w[1..] == s;
    assert TrimStart(s) == s;
    assert TrimStart(w) == s;
    assert TrimEnd(s) == s;
  }

  /** "a,b".split(",") in JavaScript: the pieces between commas, empty ones included. */
  function Split(s: string): (r: seq<string>)
    ensures |r| >= 1
    ensures forall p :: p in r ==> ',' !in p
  {
    if s == [] then [""]
    else if s[0] == ',' then [""] + Split(s[1..])
    else
      var rest := Split(s[1..]);
      assert rest[0] in rest;
      [[s[0]] + rest[0]] + rest[1..]
  }

  /** Array.prototype.join(sep). */
  function Join(parts: seq<string>, sep: string): string {
    if parts == [] then ""
    else if |parts| == 1 then parts[0]
    else parts[0] + sep + Join(parts[1..], sep)
  }

  /** Splitting a comma-free word followed by a comma splits off that word. */
  lemma {:induction false} SplitWord(w: string, rest: string)
    requires ',' !in w
    ensures Split(w + "," + rest) == [w] + Split(rest)
    ensures Split(w) == [w]
  {
    if w != [] {
      assert (w + "," + rest)[1..] == w[1..] + "," + rest;
      assert (w + "," + rest)[0] == w[0];
      SplitWord(w[1..], rest);
      assert [w[0]] + w[1..] == w;
    } else {
      assert w + "," + rest == [','] + rest;
    }
  }

  /** split(",") undoes join(","): the inverse of Join over comma-free parts. */
  lemma {:induction false} SplitJoin(parts: seq<string>)
    requires parts != []
    requires forall p :: p in parts ==> ',' !in p
    ensures Split(Join(parts, ",")) == parts
  {
    SplitWord(parts[0], "");
    if |parts| > 1 {
      SplitJoin(parts[1..]);
      SplitWord(parts[0], Join(parts[1..], ","));
      assert [parts[0]] + parts[1..] == parts;
    }
  }

  /** The substring test that `LIKE '%term%'` performs. */
  predicate Contains(s: string, term: string)
    decreases |s|
  {
    term <= s || (s != [] && Contains(s[1..], term))
  }

  /** term occurs in s starting at position k. */
  predicate OccursAt(s: string, term: string, k: int) {
    0 <= k <= |s| - |term| && s[k..k + |term|] == term
  }

  /** Contains means: term occurs at some position of s. */
  lemma {:induction false} ContainsAt(s: string, term: string)
    ensures Contains(s, term) <==> exists k :: OccursAt(s, term, k)
  {
    if term <= s {
      assert OccursAt(s, term, 0);
    } else if s != [] {
      ContainsAt(s[1..], term);
      if Contains(s[1..], term) {
        var k :| OccursAt(s[1..], term, k);
        assert s[k + 1..k + 1 + |term|] == s[1..][k..k + |term|];
        assert OccursAt(s, term, k + 1);
      }
      if exists k :: OccursAt(s, term, k) {
        var k :| OccursAt(s, term, k);
        assert k != 0;
        assert s[1..][k - 1..k - 1 + |term|] == s[k..k + |term|];
        assert OccursAt(s[1..], term, k - 1);
      }
    }
  }

  /** Every string contains itself. */
  lemma {:induction false} ContainsSelf(s: string)
    ensures Contains(s, s)
  {
  }

  /** Containment is transitive: a term found in a part is found in the whole. */
  lemma {:induction false} ContainsTrans(s: string, a: string, b: string)
    requires Contains(s, a) && Contains(a, b)
    ensures Contains(s, b)
  {
    ContainsAt(s, a);
    ContainsAt(a, b);
    var i :| OccursAt(s, a, i);
    var j :| OccursAt(a, b, j);
    forall k | 0 <= k < |b| ensures s[i + j + k] == b[k] {
      assert b[k] == a[j..j + |b|][k] == a[j + k];
      assert a[j + k] == s[i..i + |a|][j + k];
    }
    assert OccursAt(s, b, i + j);
    ContainsAt(s, b);
  }
}
