/** The two string operations the rule store and the cart tokenizer are built
    on: joining a list of strings with a separator (Python's `sep.join(items)`)
    and splitting a string on a separator (Python's `s.split(sep)`, which cuts
    at the leftmost occurrences, left to right, and always yields at least one
    piece). */
module Text {

  datatype Option<T> = None | Some(value: T)

  /** `sep` occurs in `s` starting at index `j`. */
  predicate OccursAt(s: string, sep: string, j: int) {
    0 <= j && j + |sep| <= |s| && s[j..j + |sep|] == sep
  }

  /** `sep` occurs somewhere in `s` (Python's `sep in s`). */
  predicate Contains(s: string, sep: string) {
    exists j :: 0 <= j <= |s| && OccursAt(s, sep, j)
  }

  /** No proper prefix of `sep` is also a suffix of it, so two occurrences of
      `sep` can never overlap. Both ", " and "," have this property. */
  predicate NoBorder(sep: string) {
    forall n :: 0 < n < |sep| ==> sep[..n] != sep[|sep| - n..]
  }

  /** Dropping the first character moves every occurrence one place left. */
  lemma OccursShift(s: string, sep: string, j: int)
    requires |s| > 0 && j > 0
    ensures OccursAt(s, sep, j) <==> OccursAt(s[1..], sep, j - 1)
  {
    if j + |sep| <= |s| {
      assert s[1..][j - 1..j - 1 + |sep|] == s[j..j + |sep|];
    }
  }

  /** Index of the leftmost occurrence of `sep` in `s` (Python's `s.find(sep)`,
      with None for -1). */
  function Find(s: string, sep: string): (r: Option<nat>)
    requires |sep| > 0
    ensures r.Some? ==> OccursAt(s, sep, r.value)
    ensures r.None? <==> !Contains(s, sep)
    ensures r.Some? ==> forall j :: 0 <= j < r.value ==> !OccursAt(s, sep, j)
    decreases |s|
  {
    if |s| < |sep| then None
    else if s[..|sep|] == sep then assert OccursAt(s, sep, 0); Some(0)
    else
      var t := s[1..];
      var r := Find(t, sep);
      assert forall j :: 0 < j <= |s| ==> (OccursAt(s, sep, j) <==> OccursAt(t, sep, j - 1)) by {
        forall j | 0 < j <= |s| ensures OccursAt(s, sep, j) <==> OccursAt(t, sep, j - 1) {
          OccursShift(s, sep, j);
        }
      }
      assert !OccursAt(s, sep, 0);
      match r
      case None => None
      case Some(k) => assert OccursAt(t, sep, k); Some(k + 1)
  }

  /** Python's `sep.join(items)`: the empty list gives "", a single item gives
      itself, and otherwise the items are separated by `sep`. */
  function Join(items: seq<string>, sep: string): (s: string)
    ensures |items| == 0 ==> s == ""
    ensures |items| >= 1 ==> |s| >= |items[0]| && s[..|items[0]|] == items[0]
  {
    if |items| == 0 then ""
    else if |items| == 1 then items[0]
    else items[0] + sep + Join(items[1..], sep)
  }

  /** Python's `s.split(sep)` for a non-empty separator. */
  function Split(s: string, sep: string): (parts: seq<string>)
    requires |sep| > 0
    ensures |parts| >= 1
    ensures forall k :: 0 <= k < |parts| ==> !Contains(parts[k], sep)
    decreases |s|
  {
    match Find(s, sep)
    case None => [s]
    case Some(i) =>
      var head := s[..i];
      assert !Contains(head, sep) by {
        forall j | 0 <= j <= |head| && OccursAt(head, sep, j) ensures false {
          assert head[j..j + |sep|] == s[j..j + |sep|];
          assert OccursAt(s, sep, j);
        }
      }
      [head] + Split(s[i + |sep|..], sep)
  }

  /** Joining the pieces of a split gives back the original string, for every
      string and every separator. */
  lemma {:induction false} JoinSplit(s: string, sep: string)
    requires |sep| > 0
    ensures Join(Split(s, sep), sep) == s
    decreases |s|
  {
    match Find(s, sep)
    case None =>
    case Some(i) =>
      var rest := s[i + |sep|..];
      var tail := Split(rest, sep);
      JoinSplit(rest, sep);
      assert Split(s, sep) == [s[..i]] + tail;
      JoinCons(s[..i], tail, sep);
      CutAround(s, i, sep);
  }

  /** Joining a list of at least two items puts the separator after the
      first. */
  lemma JoinCons(head: string, tail: seq<string>, sep: string)
    requires |tail| >= 1
    ensures Join([head] + tail, sep) == head + sep + Join(tail, sep)
  {
    assert ([head] + tail)[1..] == tail;
  }

  /** A string is the part before an occurrence of `sep`, `sep`, and the part
      after it. */
  lemma CutAround(s: string, i: nat, sep: string)
    requires OccursAt(s, sep, i)
    ensures s == s[..i] + sep + s[i + |sep|..]
  {
    assert s == s[..i] + s[i..i + |sep|] + s[i + |sep|..];
  }

  /** When the word before the separator does not contain it, and the
      separator cannot overlap itself, the leftmost occurrence in
      `w + sep + t` is the one right after `w`. */
  lemma FindAfterWord(w: string, sep: string, t: string)
    requires |sep| > 0 && NoBorder(sep) && !Contains(w, sep)
    ensures Find(w + sep + t, sep) == Some(|w|)
  {
    var x := w + sep + t;
    assert x[|w|..|w| + |sep|] == sep;
    assert OccursAt(x, sep, |w|);
    var r := Find(x, sep);
    assert r.Some?;
    var k := r.value;
    if k < |w| {
      assert x[k..k + |sep|] == sep;
      if k + |sep| <= |w| {
        assert w[k..k + |sep|] == x[k..k + |sep|];
        assert OccursAt(w, sep, k);
        assert false;
      } else {
        StraddleIsBorder(w, sep, t, k);
        assert false;
      }
    }
  }

  /** An occurrence of `sep` that starts inside `w` and ends inside the `sep`
      that follows it makes a proper prefix of `sep` equal to a suffix. */
  lemma StraddleIsBorder(w: string, sep: string, t: string, k: nat)
    requires k < |w| < k + |sep|
    requires OccursAt(w + sep + t, sep, k)
    ensures sep[..k + |sep| - |w|] == sep[|w| - k..]
  {
    var x := w + sep + t;
    var n, d := k + |sep| - |w|, |w| - k;
    forall m | 0 <= m < n ensures sep[..n][m] == sep[|sep| - n..][m] {
      assert x[k..k + |sep|][d + m] == x[|w| + m];
      assert x[|w| + m] == sep[m];
    }
  }

  /** Splitting a joined list gives back the list, provided the list is not
      empty, no item contains the separator and the separator cannot overlap
      itself. */
  lemma {:induction false} SplitJoin(items: seq<string>, sep: string)
    requires |sep| > 0 && NoBorder(sep)
    requires |items| >= 1
    requires forall k :: 0 <= k < |items| ==> !Contains(items[k], sep)
    ensures Split(Join(items, sep), sep) == items
    decreases |items|
  {
    if |items| == 1 {
      assert Find(items[0], sep).None?;
    } else {
      var rest := items[1..];
      var tail := Join(rest, sep);
      FindAfterWord(items[0], sep, tail);
      var s := items[0] + sep + tail;
      assert s[|items[0]| + |sep|..] == tail;
      SplitJoin(rest, sep);
      assert items == [items[0]] + rest;
    }
  }

  /** Every character of a piece of a split is a character of the string. */
  lemma {:induction false} SplitKeepsChars(s: string, sep: string)
    requires |sep| > 0
    ensures forall k, c :: 0 <= k < |Split(s, sep)| && c in Split(s, sep)[k] ==> c in s
    decreases |s|
  {
    match Find(s, sep)
    case None =>
    case Some(i) =>
      var rest := s[i + |sep|..];
      SplitKeepsChars(rest, sep);
      var parts := Split(s, sep);
      assert parts == [s[..i]] + Split(rest, sep);
      forall k, c | 0 <= k < |parts| && c in parts[k] ensures c in s {
        if k == 0 {
          var j :| 0 <= j < i && s[..i][j] == c;
          assert s[j] == c;
        } else {
          assert c in Split(rest, sep)[k - 1];
          assert c in rest;
          var j :| 0 <= j < |rest| && rest[j] == c;
          assert s[i + |sep| + j] == c;
        }
      }
  }

  /** A string without the separator's first character does not contain the
      separator. */
  lemma NoLeadCharNoContains(s: string, sep: string)
    requires |sep| > 0 && sep[0] !in s
    ensures !Contains(s, sep)
  {
    forall j | 0 <= j <= |s| ensures !OccursAt(s, sep, j) {
      if j + |sep| <= |s| {
        assert s[j..j + |sep|][0] == s[j];
      }
    }
  }
}
