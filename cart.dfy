/** The cart tokenizer of the prediction form: the text the user typed is
    split on ",", each piece is stripped of surrounding whitespace, and the
    pieces that are then empty are dropped (DB_Class/app.py:95). */
module Cart {
  import opened Text

  /** Python's `str.isspace` for one character: the code points Python treats
      as whitespace, which is what `str.strip()` with no argument removes. */
  predicate IsSpace(c: char) {
    || '\t' <= c <= '\r'
    || '\U{1C}' <= c <= ' '
    || c == '\U{85}' || c == '\U{A0}' || c == '\U{1680}'
    || '\U{2000}' <= c <= '\U{200A}'
    || c == '\U{2028}' || c == '\U{2029}' || c == '\U{202F}'
    || c == '\U{205F}' || c == '\U{3000}'
  }

  predicate AllSpace(s: string) {
    forall k :: 0 <= k < |s| ==> IsSpace(s[k])
  }

  /** A token as the tokenizer hands it on: not empty, and neither starting
      nor ending with whitespace. */
  predicate Trimmed(s: string) {
    |s| > 0 && !IsSpace(s[0]) && !IsSpace(s[|s| - 1])
  }

  /** The first index at or after `i` that does not hold whitespace, or |s|. */
  function SkipSpace(s: string, i: nat): (j: nat)
    requires i <= |s|
    ensures i <= j <= |s|
    ensures forall k :: i <= k < j ==> IsSpace(s[k])
    ensures j < |s| ==> !IsSpace(s[j])
    decreases |s| - i
  {
    if i < |s| && IsSpace(s[i]) then SkipSpace(s, i + 1) else i
  }

  /** The least index at or after `lo`, and at or before `j`, from which on
      up to `j` every character is whitespace. */
  function BackSpace(s: string, lo: nat, j: nat): (i: nat)
    requires lo <= j <= |s|
    ensures lo <= i <= j
    ensures forall k :: i <= k < j ==> IsSpace(s[k])
    ensures i > lo ==> !IsSpace(s[i - 1])
    decreases j
  {
    if j > lo && IsSpace(s[j - 1]) then BackSpace(s, lo, j - 1) else j
  }

  /** `r` is `s` with the whitespace before index `i` and the whitespace
      after `r` removed. */
  predicate Surrounds(s: string, i: int, r: string) {
    && 0 <= i <= |s| - |r| && s[i..i + |r|] == r
    && (forall k :: 0 <= k < i ==> IsSpace(s[k]))
    && (forall k :: i + |r| <= k < |s| ==> IsSpace(s[k]))
  }

  /** Python's `s.strip()`: the part of `s` between its leading and its
      trailing whitespace. The result is empty exactly when `s` is all
      whitespace, and otherwise it is trimmed. */
  function Strip(s: string): (r: string)
    ensures exists i :: Surrounds(s, i, r)
    ensures r == [] <==> AllSpace(s)
    ensures r != [] ==> Trimmed(r)
  {
    var i := SkipSpace(s, 0);
    var j := BackSpace(s, i, |s|);
    var r := s[i..j];
    assert Surrounds(s, i, r);
    assert r != [] ==> r[0] == s[i] && r[|r| - 1] == s[j - 1];
    r
  }

  /** Each piece stripped, in order, with the pieces that strip to nothing
      dropped. */
  function StripAll(pieces: seq<string>): (tokens: seq<string>)
    ensures |tokens| <= |pieces|
    ensures forall k :: 0 <= k < |tokens| ==> Trimmed(tokens[k])
  {
    if pieces == [] then []
    else
      var t := Strip(pieces[0]);
      (if t == [] then [] else [t]) + StripAll(pieces[1..])
  }

  /** The cart typed by the user, as the list of item names handed to the
      matcher (DB_Class/app.py:95). */
  function Tokenize(input: string): (cart: seq<string>)
    ensures forall k :: 0 <= k < |cart| ==> Trimmed(cart[k]) && ',' !in cart[k]
  {
    var pieces := Split(input, ",");
    forall k | 0 <= k < |pieces| ensures ',' !in pieces[k] {
      ContainsChar(pieces[k], ',');
    }
    StripAllKeepsOut(pieces, ',');
    StripAll(pieces)
  }

  /** A character that no piece holds is held by no token. */
  lemma {:induction false} StripAllKeepsOut(pieces: seq<string>, c: char)
    requires forall k :: 0 <= k < |pieces| ==> c !in pieces[k]
    ensures forall k :: 0 <= k < |StripAll(pieces)| ==> c !in StripAll(pieces)[k]
  {
    if pieces != [] {
      StripAllKeepsOut(pieces[1..], c);
      StripKeepsOut(pieces[0], c);
    }
  }

  /** Every character of the stripped string is a character of the original. */
  lemma StripKeepsOut(s: string, c: char)
    requires c !in s
    ensures c !in Strip(s)
  {
    var r := Strip(s);
    var i :| Surrounds(s, i, r);
    forall k | 0 <= k < |r| ensures r[k] != c {
      assert r[k] == s[i..i + |r|][k] == s[i + k];
    }
  }

  /** A one-character separator occurs in a string exactly when the
      character does. */
  lemma ContainsChar(s: string, c: char)
    ensures Contains(s, [c]) <==> c in s
  {
    if c in s {
      var j :| 0 <= j < |s| && s[j] == c;
      assert s[j..j + 1] == [c];
      assert OccursAt(s, [c], j);
    }
    if Contains(s, [c]) {
      var j :| 0 <= j <= |s| && OccursAt(s, [c], j);
      assert s[j] == s[j..j + 1][0];
    }
  }

  /** A list of item names that are each already trimmed and free of commas
      comes back unchanged when it is typed comma-separated. The empty list
      comes back too: its text is "" whose only piece is dropped. */
  lemma {:induction false} TokenizeJoin(items: seq<string>)
    requires forall k :: 0 <= k < |items| ==> Trimmed(items[k]) && ',' !in items[k]
    ensures Tokenize(Join(items, ",")) == items
  {
    assert NoBorder(",");
    forall k | 0 <= k < |items| ensures !Contains(items[k], ",") {
      ContainsChar(items[k], ',');
    }
    if items == [] {
      assert Split("", ",") == [""];
      assert StripAll([""]) == [] by {
        assert AllSpace("");
      }
    } else {
      SplitJoin(items, ",");
      StripAllTrimmed(items);
    }
  }

  /** Stripping leaves strings that are already trimmed as they are. */
  lemma {:induction false} StripAllTrimmed(items: seq<string>)
    requires forall k :: 0 <= k < |items| ==> Trimmed(items[k])
    ensures StripAll(items) == items
  {
    if items != [] {
      StripTrimmed(items[0]);
      StripAllTrimmed(items[1..]);
      assert items == [items[0]] + items[1..];
    }
  }

  lemma StripTrimmed(s: string)
    requires Trimmed(s)
    ensures Strip(s) == s
  {
    assert SkipSpace(s, 0) == 0;
    assert BackSpace(s, 0, |s|) == |s|;
    assert s[0..|s|] == s;
  }

  /** A name with whitespace around it strips to the name. */
  lemma StripPadded(pre: string, item: string, post: string)
    requires AllSpace(pre) && Trimmed(item) && AllSpace(post)
    ensures Strip(pre + item + post) == item
  {
    var s := pre + item + post;
    var m, e := |pre|, |pre| + |item|;
    assert s[m] == item[0] && s[e - 1] == item[|item| - 1];
    assert forall k :: 0 <= k < m ==> s[k] == pre[k];
    assert forall k :: e <= k < |s| ==> s[k] == post[k - e];
    var i := SkipSpace(s, 0);
    assert i == m;
    var j := BackSpace(s, i, |s|);
    assert j == e;
    assert s[m..e] == item;
  }

  /** The items padded with whitespace, one padded name per piece. */
  function Padded(pre: seq<string>, items: seq<string>, post: seq<string>): (pieces: seq<string>)
    requires |pre| == |items| == |post|
    ensures |pieces| == |items|
  {
    seq(|items|, k requires 0 <= k < |items| => pre[k] + items[k] + post[k])
  }

  /** The names that are not empty, in order. */
  function NonBlank(items: seq<string>): seq<string> {
    if items == [] then []
    else (if items[0] == [] then [] else [items[0]]) + NonBlank(items[1..])
  }

  /** Every input that the tokenizer can be given, once it is cut at its
      commas, has this form: names, each with any whitespace before and
      after it, where a name may be empty (as in "milk,,bread", "milk, ,
      bread" or a trailing comma). The cart is the non-empty names, in
      order. */
  lemma PaddedInputTokenizes(pre: seq<string>, items: seq<string>, post: seq<string>)
    requires |pre| == |items| == |post|
    requires forall k :: 0 <= k < |items| ==> (items[k] == [] || Trimmed(items[k])) && ',' !in items[k]
    requires forall k :: 0 <= k < |items| ==> AllSpace(pre[k]) && AllSpace(post[k])
    ensures Tokenize(Join(Padded(pre, items, post), ",")) == NonBlank(items)
  {
    var pieces := Padded(pre, items, post);
    assert NoBorder(",");
    forall k | 0 <= k < |pieces| ensures !Contains(pieces[k], ",") {
      assert ',' !in pre[k] && ',' !in post[k] by {
        assert !IsSpace(',');
      }
      ContainsChar(pieces[k], ',');
    }
    if items == [] {
      assert Split("", ",") == [""];
      assert StripAll([""]) == [] by {
        assert AllSpace("");
      }
    } else {
      SplitJoin(pieces, ",");
      StripAllPadded(pre, items, post);
    }
  }

  /** Whitespace alone strips to nothing. */
  lemma StripBlankPadded(pre: string, post: string)
    requires AllSpace(pre) && AllSpace(post)
    ensures Strip(pre + post) == []
  {
    assert AllSpace(pre + post) by {
      assert forall k :: 0 <= k < |pre + post| ==> (pre + post)[k] == if k < |pre| then pre[k] else post[k - |pre|];
    }
  }

  /** Stripping each padded name gives the names, with the empty ones
      dropped. */
  lemma {:induction false} StripAllPadded(pre: seq<string>, items: seq<string>, post: seq<string>)
    requires |pre| == |items| == |post|
    requires forall k :: 0 <= k < |items| ==> items[k] == [] || Trimmed(items[k])
    requires forall k :: 0 <= k < |items| ==> AllSpace(pre[k]) && AllSpace(post[k])
    ensures StripAll(Padded(pre, items, post)) == NonBlank(items)
  {
    if items != [] {
      var pieces := Padded(pre, items, post);
      assert pieces[0] == pre[0] + items[0] + post[0];
      if items[0] == [] {
        assert pieces[0] == pre[0] + post[0];
        StripBlankPadded(pre[0], post[0]);
      } else {
        StripPadded(pre[0], items[0], post[0]);
      }
      PaddedTail(pre, items, post);
      StripAllPadded(pre[1..], items[1..], post[1..]);
      assert StripAll(pieces) == (if items[0] == [] then [] else [items[0]]) + StripAll(pieces[1..]);
    }
  }

  lemma PaddedTail(pre: seq<string>, items: seq<string>, post: seq<string>)
    requires |pre| == |items| == |post| > 0
    ensures Padded(pre, items, post)[1..] == Padded(pre[1..], items[1..], post[1..])
  {
  }

  /** Pieces that are all whitespace give no tokens. */
  lemma {:induction false} BlankPiecesAreDropped(pieces: seq<string>)
    requires forall k :: 0 <= k < |pieces| ==> AllSpace(pieces[k])
    ensures StripAll(pieces) == []
  {
    if pieces != [] {
      BlankPiecesAreDropped(pieces[1..]);
    }
  }

  /** Input made only of whitespace and commas, the empty input included, is
      an empty cart. */
  lemma BlankInputIsEmptyCart(input: string)
    requires forall k :: 0 <= k < |input| ==> IsSpace(input[k]) || input[k] == ','
    ensures Tokenize(input) == []
  {
    var pieces := Split(input, ",");
    SplitKeepsChars(input, ",");
    forall k | 0 <= k < |pieces| ensures AllSpace(pieces[k]) {
      ContainsChar(pieces[k], ',');
      forall n | 0 <= n < |pieces[k]| ensures IsSpace(pieces[k][n]) {
        var c := pieces[k][n];
        assert c in pieces[k];
        assert c in input;
        var j :| 0 <= j < |input| && input[j] == c;
      }
    }
    BlankPiecesAreDropped(pieces);
  }

  /** The default text of the form gives the two items it names. */
  lemma DefaultCart()
    ensures Tokenize("whole milk, yogurt") == ["whole milk", "yogurt"]
  {
    DefaultPieces();
    DefaultTokens();
  }

  lemma DefaultTokens()
    ensures StripAll(["whole milk", " yogurt"]) == ["whole milk", "yogurt"]
  {
    var pieces := ["whole milk", " yogurt"];
    StripTrimmed("whole milk");
    StripLeadingBlank();
    assert pieces[1..] == [" yogurt"];
    assert StripAll([" yogurt"]) == ["yogurt"] + StripAll([]) by {
      assert [" yogurt"][1..] == [];
    }
  }

  lemma DefaultPieces()
    ensures Split("whole milk, yogurt", ",") == ["whole milk", " yogurt"]
  {
    var pieces := ["whole milk", " yogurt"];
    assert Join(pieces, ",") == "whole milk, yogurt";
    assert NoBorder(",");
    ContainsChar(pieces[0], ',');
    ContainsChar(pieces[1], ',');
    SplitJoin(pieces, ",");
  }

  lemma StripLeadingBlank()
    ensures Strip(" yogurt") == "yogurt"
  {
    var y := " yogurt";
    assert SkipSpace(y, 1) == 1;
    assert SkipSpace(y, 0) == 1;
    assert BackSpace(y, 1, |y|) == |y|;
    assert y[1..] == "yogurt";
  }
}
