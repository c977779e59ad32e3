/**
 The Python `str` operations the reply cleaner relies on, over strings as
 sequences of characters: `find`, `replace`, `split`, `join` and `strip`.
 `ReplaceAll` and `Strip` are the operations the cleaner uses; `Find`, `Split`
 and `Join` are the reference definitions that `ReplaceAll` is proved against.
 */
module PyStr {
  import opened Wrappers

  /** Python's `s.startswith(pat)`. */
  predicate StartsWith(s: string, pat: string) {
    |pat| <= |s| && s[..|pat|] == pat
  }

  /** `pat` occurs in `s` starting at index `i`. */
  predicate OccursAt(s: string, pat: string, i: nat) {
    i <= |s| && StartsWith(s[i..], pat)
  }

  /** Python's `pat in s`. */
  predicate Occurs(s: string, pat: string) {
    exists i: nat :: i <= |s| && OccursAt(s, pat, i)
  }

  lemma OccursAtTail(s: string, pat: string, j: nat)
    requires s != []
    ensures OccursAt(s[1..], pat, j) <==> OccursAt(s, pat, j + 1)
  {
    if j + 1 <= |s| {
      assert s[1..][j..] == s[j + 1..];
    }
  }

  /** Python's `s.find(pat)`: the leftmost start of `pat` in `s`; `None` stands for -1. */
  function Find(s: string, pat: string): Option<nat>
    decreases |s|
  {
    if StartsWith(s, pat) then Some(0)
    else if s == [] then None
    else
      match Find(s[1..], pat)
      case None => None
      case Some(i) => Some(i + 1)
  }

  /** `Find` returns the leftmost occurrence, and `None` exactly when there is none. */
  lemma {:induction false} FindSpec(s: string, pat: string)
    ensures Find(s, pat).Some? ==> Find(s, pat).value + |pat| <= |s| && OccursAt(s, pat, Find(s, pat).value)
    ensures Find(s, pat).Some? ==> forall j: nat :: j < Find(s, pat).value ==> !OccursAt(s, pat, j)
    ensures Find(s, pat).None? <==> !Occurs(s, pat)
    decreases |s|
  {
    if StartsWith(s, pat) {
      assert OccursAt(s, pat, 0);
    } else if s == [] {
      assert !Occurs(s, pat) by {
        forall j: nat | j <= |s| ensures !OccursAt(s, pat, j) {
          assert j == 0 && s[j..] == s;
        }
      }
    } else {
      FindSpec(s[1..], pat);
      assert !OccursAt(s, pat, 0);
      var rest := Find(s[1..], pat);
      if rest.None? {
        assert !Occurs(s, pat) by {
          forall j: nat | j <= |s| ensures !OccursAt(s, pat, j) {
            if j > 0 {
              OccursAtTail(s, pat, j - 1);
              assert !OccursAt(s[1..], pat, j - 1);
            }
          }
        }
      } else {
        var i := rest.value;
        OccursAtTail(s, pat, i);
        forall j: nat | j < i + 1 ensures !OccursAt(s, pat, j) {
          if j > 0 {
            OccursAtTail(s, pat, j - 1);
            assert !OccursAt(s[1..], pat, j - 1);
          }
        }
      }
    }
  }

  /**
   Python's `s.replace(pat, rep)`: every non-overlapping occurrence of `pat`,
   found left to right in one pass, is replaced by `rep`. An empty `pat`
   matches before every character and at the end.
   */
  function ReplaceAll(s: string, pat: string, rep: string): string
    decreases |s|
  {
    if pat == [] then
      if s == [] then rep else rep + [s[0]] + ReplaceAll(s[1..], pat, rep)
    else if s == [] then []
    else if StartsWith(s, pat) then rep + ReplaceAll(s[|pat|..], pat, rep)
    else [s[0]] + ReplaceAll(s[1..], pat, rep)
  }

  /** Replacing a pattern that does not occur leaves the string as it is. */
  lemma {:induction false} ReplaceAbsent(s: string, pat: string, rep: string)
    requires !Occurs(s, pat)
    ensures ReplaceAll(s, pat, rep) == s
    decreases |s|
  {
    assert !OccursAt(s, pat, 0);
    if s != [] {
      assert !Occurs(s[1..], pat) by {
        forall j: nat | j <= |s[1..]| ensures !OccursAt(s[1..], pat, j) {
          OccursAtTail(s, pat, j);
        }
      }
      ReplaceAbsent(s[1..], pat, rep);
    }
  }

  /** Replacing a pattern by itself leaves the string as it is. */
  lemma {:induction false} ReplaceSelf(s: string, pat: string)
    ensures ReplaceAll(s, pat, pat) == s
    decreases |s|
  {
    if s != [] {
      if pat == [] {
        ReplaceSelf(s[1..], pat);
        assert ReplaceAll(s, pat, pat) == [] + [s[0]] + s[1..];
      } else if StartsWith(s, pat) {
        ReplaceSelf(s[|pat|..], pat);
        ReplaceStep(s, pat, pat);
        assert pat == s[..|pat|];
        assert s[..|pat|] + s[|pat|..] == s;
      } else {
        ReplaceSelf(s[1..], pat);
        ReplaceStep(s, pat, pat);
        assert [s[0]] + s[1..] == s;
      }
    }
  }

  /** A pattern longer than the text cannot occur in it. */
  lemma ReplaceShort(s: string, pat: string, rep: string)
    requires |s| < |pat|
    ensures ReplaceAll(s, pat, rep) == s
  {
    assert !Occurs(s, pat) by {
      forall i: nat | i <= |s| ensures !OccursAt(s, pat, i) {
      }
    }
    ReplaceAbsent(s, pat, rep);
  }

  /** A text without the pattern's first character has nothing to replace. */
  lemma ReplaceWithoutLead(s: string, pat: string, rep: string)
    requires pat != [] && pat[0] !in s
    ensures ReplaceAll(s, pat, rep) == s
  {
    assert s + [] == s;
    ReplacePlain(s, [], pat, rep);
  }

  /**
   A text whose first character does not start an occurrence, and whose rest
   lacks the pattern's first character, has nothing to replace.
   */
  lemma ReplaceSkipFirst(c: char, rest: string, pat: string, rep: string)
    requires pat != [] && !StartsWith([c] + rest, pat) && pat[0] !in rest
    ensures ReplaceAll([c] + rest, pat, rep) == [c] + rest
  {
    var s := [c] + rest;
    ReplaceStep(s, pat, rep);
    assert s[1..] == rest;
    ReplaceWithoutLead(rest, pat, rep);
  }

  /**
   The scan passes a first character that does not start an occurrence and
   then a stretch without the pattern's first character.
   */
  lemma ReplaceAfterMiss(c: char, plain: string, rest: string, pat: string, rep: string)
    requires pat != [] && !StartsWith([c] + (plain + rest), pat) && pat[0] !in plain
    ensures ReplaceAll([c] + (plain + rest), pat, rep) == [c] + plain + ReplaceAll(rest, pat, rep)
  {
    var s := [c] + (plain + rest);
    ReplaceStep(s, pat, rep);
    assert s[1..] == plain + rest;
    ReplacePlain(plain, rest, pat, rep);
  }

  /** An occurrence at the very start is replaced and the scan resumes after it. */
  lemma ReplaceHit(pat: string, rest: string, rep: string)
    requires pat != []
    ensures ReplaceAll(pat + rest, pat, rep) == rep + ReplaceAll(rest, pat, rep)
  {
    assert (pat + rest)[..|pat|] == pat;
    assert (pat + rest)[|pat|..] == rest;
  }

  /** Text without the pattern's first character is copied through unchanged. */
  lemma {:induction false} ReplacePlain(plain: string, rest: string, pat: string, rep: string)
    requires pat != [] && pat[0] !in plain
    ensures ReplaceAll(plain + rest, pat, rep) == plain + ReplaceAll(rest, pat, rep)
    decreases |plain|
  {
    if plain != [] {
      var s := plain + rest;
      assert s[0] == plain[0] && plain[0] != pat[0];
      assert !StartsWith(s, pat) by {
        if |pat| <= |s| {
          assert s[..|pat|][0] == s[0];
        }
      }
      ReplaceStep(s, pat, rep);
      assert s[1..] == plain[1..] + rest;
      assert pat[0] !in plain[1..];
      ReplacePlain(plain[1..], rest, pat, rep);
      assert [plain[0]] + plain[1..] == plain;
    } else {
      assert plain + rest == rest;
    }
  }

  /** Python's `s.split(sep)` for a non-empty separator (an empty one raises `ValueError`). */
  function Split(s: string, sep: string): (parts: seq<string>)
    requires sep != []
    ensures |parts| >= 1
    decreases |s|
  {
    match Find(s, sep)
    case None => [s]
    case Some(i) =>
      FindSome(s, sep, i);
      [s[..i]] + Split(s[i + |sep|..], sep)
  }

  /** No piece that `Split` returns contains the separator. */
  lemma {:induction false} SplitPartsFree(s: string, sep: string)
    requires sep != []
    ensures forall k :: 0 <= k < |Split(s, sep)| ==> !Occurs(Split(s, sep)[k], sep)
    decreases |s|
  {
    FindSpec(s, sep);
    match Find(s, sep)
    case None =>
    case Some(i) =>
      var rest := s[i + |sep|..];
      SplitPartsFree(rest, sep);
      assert !Occurs(s[..i], sep) by {
        forall j: nat | j <= i ensures !OccursAt(s[..i], sep, j) {
          PrefixOccurrence(s, sep, i, j);
        }
      }
      assert Split(s, sep) == [s[..i]] + Split(rest, sep);
  }

  /** `Find`'s answer, without the quantifiers: where the occurrence lies. */
  lemma FindSome(s: string, pat: string, i: nat)
    requires Find(s, pat) == Some(i)
    ensures i + |pat| <= |s| && s[i..i + |pat|] == pat
  {
    FindSpec(s, pat);
  }

  /** An occurrence inside a prefix of `s` that ends within the prefix is an occurrence in `s`. */
  lemma PrefixOccurrence(s: string, pat: string, i: nat, j: nat)
    requires i <= |s|
    ensures OccursAt(s[..i], pat, j) ==> OccursAt(s, pat, j) && j + |pat| <= i
  {
    if OccursAt(s[..i], pat, j) {
      assert s[..i][j..][..|pat|] == s[j..][..|pat|];
    }
  }

  /** Python's `sep.join(parts)`. */
  function Join(parts: seq<string>, sep: string): string {
    if parts == [] then []
    else if |parts| == 1 then parts[0]
    else parts[0] + sep + Join(parts[1..], sep)
  }

  lemma JoinCons(head: string, parts: seq<string>, sep: string)
    requires parts != []
    ensures Join([head] + parts, sep) == head + sep + Join(parts, sep)
  {
    assert ([head] + parts)[1..] == parts;
  }

  /** Splitting on a separator and joining with it again gives back the string. */
  lemma {:induction false} SplitJoin(s: string, sep: string)
    requires sep != []
    ensures Join(Split(s, sep), sep) == s
    decreases |s|
  {
    match Find(s, sep)
    case None =>
    case Some(i) =>
      FindSome(s, sep, i);
      var rest := s[i + |sep|..];
      var parts := Split(rest, sep);
      assert Split(s, sep) == [s[..i]] + parts;
      calc {
        Join([s[..i]] + parts, sep);
        { JoinCons(s[..i], parts, sep); }
        s[..i] + sep + Join(parts, sep);
        { SplitJoin(rest, sep); }
        s[..i] + sep + rest;
        { assert s == s[..i] + s[i..i + |sep|] + rest; }
        s;
      }
  }

  /** `ReplaceAll` copies the text before the first occurrence, emits `rep`, and continues after it. */
  lemma {:induction false} ReplaceAtFirst(s: string, pat: string, rep: string, i: nat)
    requires pat != [] && Find(s, pat) == Some(i) && i + |pat| <= |s|
    ensures ReplaceAll(s, pat, rep) == s[..i] + rep + ReplaceAll(s[i + |pat|..], pat, rep)
    decreases |s|
  {
    var after := ReplaceAll(s[i + |pat|..], pat, rep);
    if !StartsWith(s, pat) {
      TailFind(s, pat, i);
      var tail, k := s[1..], i - 1;
      calc {
        ReplaceAll(s, pat, rep);
        { ReplaceStep(s, pat, rep); }
        [s[0]] + ReplaceAll(tail, pat, rep);
        { ReplaceAtFirst(tail, pat, rep, k); }
        [s[0]] + (tail[..k] + rep + ReplaceAll(tail[k + |pat|..], pat, rep));
        { assert tail[k + |pat|..] == s[i + |pat|..]; }
        [s[0]] + (tail[..k] + rep + after);
        { ConsShift(s, tail, k, rep, after); }
        s[..i] + rep + after;
      }
    } else {
      calc {
        ReplaceAll(s, pat, rep);
        { ReplaceStep(s, pat, rep); }
        rep + ReplaceAll(s[|pat|..], pat, rep);
        { assert s[..i] == [] && i == 0; }
        s[..i] + rep + after;
      }
    }
  }

  lemma ConsShift(s: string, tail: string, k: nat, rep: string, after: string)
    requires s != [] && tail == s[1..] && k <= |tail|
    ensures [s[0]] + (tail[..k] + rep + after) == s[..k + 1] + rep + after
  {
    assert [s[0]] + tail[..k] == s[..k + 1];
  }

  /** One step of `ReplaceAll` on a non-empty string with a non-empty pattern. */
  lemma ReplaceStep(s: string, pat: string, rep: string)
    requires pat != [] && s != []
    ensures ReplaceAll(s, pat, rep) ==
      if StartsWith(s, pat) then rep + ReplaceAll(s[|pat|..], pat, rep) else [s[0]] + ReplaceAll(s[1..], pat, rep)
  {
  }

  /** When `pat` does not start `s`, its first occurrence is one further than in the tail. */
  lemma TailFind(s: string, pat: string, i: nat)
    requires pat != [] && Find(s, pat) == Some(i) && !StartsWith(s, pat)
    ensures 0 < i && i + |pat| <= |s| && Find(s[1..], pat) == Some(i - 1)
  {
    FindSome(s, pat, i);
  }

  /** Python's identity `s.replace(pat, rep) == rep.join(s.split(pat))`. */
  lemma {:induction false} ReplaceIsSplitJoin(s: string, pat: string, rep: string)
    requires pat != []
    ensures ReplaceAll(s, pat, rep) == Join(Split(s, pat), rep)
    decreases |s|
  {
    match Find(s, pat)
    case None =>
      FindSpec(s, pat);
      ReplaceAbsent(s, pat, rep);
    case Some(i) =>
      FindSome(s, pat, i);
      var rest := s[i + |pat|..];
      var parts := Split(rest, pat);
      assert Split(s, pat) == [s[..i]] + parts;
      calc {
        ReplaceAll(s, pat, rep);
        { ReplaceAtFirst(s, pat, rep, i); }
        s[..i] + rep + ReplaceAll(rest, pat, rep);
        { ReplaceIsSplitJoin(rest, pat, rep); }
        s[..i] + rep + Join(parts, rep);
        { JoinCons(s[..i], parts, rep); }
        Join([s[..i]] + parts, rep);
      }
  }

  /** The characters Python's `str.isspace` accepts. */
  predicate IsSpace(c: char) {
    ('\t' <= c <= '\r') || ('\U{1C}' <= c <= '\U{1F}') || c == ' ' ||
    c == '\U{85}' || c == '\U{A0}' || c == '\U{1680}' ||
    ('\U{2000}' <= c <= '\U{200A}') || c == '\U{2028}' || c == '\U{2029}' ||
    c == '\U{202F}' || c == '\U{205F}' || c == '\U{3000}'
  }

  /** Every character of `s` at a position from `lo` up to, not including, `hi` is whitespace. */
  predicate SpaceBetween(s: string, lo: int, hi: int) {
    forall k :: lo <= k < hi && 0 <= k < |s| ==> IsSpace(s[k])
  }

  /** Neither the first nor the last character of `s` is whitespace. */
  predicate Trimmed(s: string) {
    s == [] || (!IsSpace(s[0]) && !IsSpace(s[|s| - 1]))
  }

  /** The number of whitespace characters `s` starts with. */
  function LeadingSpaces(s: string): (n: nat)
    ensures n <= |s| && SpaceBetween(s, 0, n)
    ensures n == |s| || !IsSpace(s[n])
  {
    if s != [] && IsSpace(s[0]) then 1 + LeadingSpaces(s[1..]) else 0
  }

  /** The number of whitespace characters `s` ends with. */
  function TrailingSpaces(s: string): (n: nat)
    ensures n <= |s| && SpaceBetween(s, |s| - n, |s|)
    ensures n == |s| || !IsSpace(s[|s| - 1 - n])
  {
    if s != [] && IsSpace(s[|s| - 1]) then 1 + TrailingSpaces(s[..|s| - 1]) else 0
  }

  /** Python's `s.strip()`: `s` without its leading and trailing whitespace. */
  function Strip(s: string): (r: string)
    ensures Trimmed(r)
    ensures exists i :: 0 <= i <= |s| - |r| && r == s[i..i + |r|] && SpaceBetween(s, 0, i) && SpaceBetween(s, i + |r|, |s|)
  {
    var i := LeadingSpaces(s);
    if i == |s| then
      assert s[i..i + 0] == [];
      []
    else
      var j := |s| - TrailingSpaces(s);
      assert i < j;
      var r := s[i..j];
      assert r == s[i..i + |r|];
      r
  }

  /**
   `Strip` gives back exactly the trimmed middle that whitespace surrounds in `s`:
   together with `Strip`'s own contract this characterises it completely.
   */
  lemma StripUnique(s: string, i: nat, j: nat)
    requires i <= j <= |s| && SpaceBetween(s, 0, i) && SpaceBetween(s, j, |s|) && Trimmed(s[i..j])
    ensures Strip(s) == s[i..j]
  {
    var a := LeadingSpaces(s);
    if i == j {
      assert a == |s|;
    } else {
      assert s[i..j][0] == s[i] && s[i..j][j - i - 1] == s[j - 1];
      assert a == i;
      assert |s| - TrailingSpaces(s) == j;
    }
  }

  /** A string without surrounding whitespace is left as it is. */
  lemma StripTrimmed(s: string)
    requires Trimmed(s)
    ensures Strip(s) == s
  {
    assert s[0..|s|] == s;
    StripUnique(s, 0, |s|);
  }

  /** Stripping an already stripped string changes nothing. */
  lemma StripIdempotent(s: string)
    ensures Strip(Strip(s)) == Strip(s)
  {
    StripTrimmed(Strip(s));
  }
}
