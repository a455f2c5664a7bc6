/** The resumable tokenizer (src/klib.c): the tokens that its callers collect, call after call, are
    the words of the string exactly when no word is empty. */
module StrTok {

  /** The first delimiter at or after p, or the end of the string. */
  function NextDelim(s: string, d: char, p: nat): (e: nat)
    requires p <= |s|
    ensures p <= e <= |s| && (e < |s| ==> s[e] == d) && forall i | p <= i < e :: s[i] != d
    decreases |s| - p
  {
    if p == |s| || s[p] == d then p else NextDelim(s, d, p + 1)
  }

  /** The words from position p on: what lies between delimiters, with nothing after a last one. */
  function WordsFrom(s: string, d: char, p: nat): seq<string>
    decreases |s| - p
  {
    if p >= |s| then [] else
      var e := NextDelim(s, d, p);
      [s[p..e]] + WordsFrom(s, d, e + 1)
  }

  function Words(s: string, d: char): seq<string> { WordsFrom(s, d, 0) }

  /** No word is empty: a delimiter neither begins the string nor follows another. */
  ghost predicate Clean(s: string, d: char, p: nat) {
    forall i | p <= i < |s| && s[i] == d :: i > p && s[i - 1] != d
  }

  /** The tokens from a token that starts at p on. */
  ghost function TokensAt(s: string, d: char, p: nat): seq<string>
    decreases |s| - p
  {
    if p >= |s| then [] else
      var e := NextDelim(s, d, p + 1);
      [s[p..e]] + TokensAt(s, d, e + 1)
  }

  /** What is still to come for a cursor: sz is 0 before the first call. */
  ghost function Rest(s: string, d: char, off: nat, sz: nat): seq<string>
    requires sz != 0 ==> off < |s|
  {
    if s == [] then []
    else if sz != 0 then TokensAt(s, d, NextDelim(s, d, off + 1) + 1)
    else if off == 0 && s[0] == d then [s[..1]] + TokensAt(s, d, NextDelim(s, d, 1) + 1)
    else TokensAt(s, d, off)
  }

  lemma RestUnfolds(s: string, d: char, off: nat, sz: nat)
    requires if sz == 0 then off == 0 else off + sz <= |s|
    ensures s == [] ==> Rest(s, d, off, sz) == []
    ensures sz != 0 ==> Rest(s, d, off, sz) == TokensAt(s, d, NextDelim(s, d, off + 1) + 1)
    ensures sz == 0 && s != [] ==>
              Rest(s, d, off, sz) == if s[0] == d then [s[..1]] + TokensAt(s, d, NextDelim(s, d, 1) + 1) else TokensAt(s, d, 0)
  {
  }

  lemma TokensUnfold(s: string, d: char, p: nat)
    ensures TokensAt(s, d, p) == if p >= |s| then [] else [s[p..NextDelim(s, d, p + 1)]] + TokensAt(s, d, NextDelim(s, d, p + 1) + 1)
  {
  }

  class Cursor {
    var off: nat
    var sz: nat

    constructor ()
      ensures off == 0 && sz == 0
    {
      off, sz := 0, 0;
    }

    /** Where a call can leave the cursor. */
    ghost predicate Reached(s: string)
      reads this
    {
      if sz == 0 then off == 0 else off + sz <= |s|
    }

    /** `str_tok`: the cursor moves to the next token, or back to the start when there is none. */
    method Next(s: string, d: char)
      requires Reached(s)
      modifies this
      ensures Reached(s)
      ensures var rest := old(Rest(s, d, off, sz));
              if sz == 0 then rest == [] else rest == [s[off..off + sz]] + Rest(s, d, off, sz)
      ensures sz != 0 && old(sz) != 0 ==> off > old(off)
    {
      hide TokensAt, Rest, NextDelim;
      RestUnfolds(s, d, off, sz);
      if off > |s| || |s| == 0 {
        off, sz := 0, 0;
        return;
      }
      if sz != 0 {
        SkipPast(s, d);
      }
      if off == 0 && s[off] == d {
        sz := 1;
        RestUnfolds(s, d, 0, 1);
        return;
      }
      var i := ScanEnd(s, d);
      TokensUnfold(s, d, off);
      if i > |s| {
        off, sz := 0, 0;
        return;
      }
      sz := i - off;
      RestUnfolds(s, d, off, sz);
    }

    /** The skip of a further call: past the delimiter that ended the token, or past the end. */
    method SkipPast(s: string, d: char)
      requires off < |s|
      modifies this`off
      ensures off == NextDelim(s, d, old(off) + 1) + 1
    {
      off := off + 1;
      ghost var from := off;
      while off < |s| && s[off] != d
        invariant from <= off <= |s|
        invariant NextDelim(s, d, from) == NextDelim(s, d, off)
      {
        off := off + 1;
      }
      off := off + 1;
    }

    /** The scan for the end of the token that starts at the cursor. */
    method ScanEnd(s: string, d: char) returns (i: nat)
      ensures i == if off + 1 <= |s| then NextDelim(s, d, off + 1) else off + 1
    {
      i := off + 1;
      while i < |s| && s[i] != d
        invariant off + 1 <= i && (i <= |s| || i == off + 1)
        invariant off + 1 <= |s| ==> i <= |s| && NextDelim(s, d, off + 1) == NextDelim(s, d, i)
      {
        i := i + 1;
      }
    }

    /** The loop of the callers: take tokens until the size is 0. */
    method Collect(s: string, d: char) returns (tokens: seq<string>)
      requires off == 0 && sz == 0
      modifies this
      ensures tokens == Words(s, d) <==> Clean(s, d, 0)
    {
      hide NextDelim, TokensAt, WordsFrom, Clean, Rest;
      tokens := [];
      Next(s, d);
      while sz != 0
        invariant Reached(s)
        invariant Rest(s, d, 0, 0) == tokens + if sz == 0 then [] else [s[off..off + sz]] + Rest(s, d, off, sz)
        decreases if sz == 0 then 0 else |s| - off
      {
        tokens := tokens + [s[off..off + sz]];
        Next(s, d);
      }
      TokensAreWords(s, d);
    }
  }

  /** The first token and the first word from a start that is no delimiter. */
  lemma FirstOfBoth(s: string, d: char, p: nat, e: nat)
    requires p < |s| && s[p] != d && e == NextDelim(s, d, p + 1)
    ensures TokensAt(s, d, p) == [s[p..e]] + TokensAt(s, d, e + 1) && WordsFrom(s, d, p) == [s[p..e]] + WordsFrom(s, d, e + 1)
  {
    hide NextDelim, TokensAt, WordsFrom;
    FirstToken(s, d, p);
    FirstWord(s, d, p);
  }

  lemma FirstToken(s: string, d: char, p: nat)
    requires p < |s|
    ensures var e := NextDelim(s, d, p + 1); TokensAt(s, d, p) == [s[p..e]] + TokensAt(s, d, e + 1)
  {
    hide NextDelim, WordsFrom;
  }

  lemma FirstWord(s: string, d: char, p: nat)
    requires p < |s| && s[p] != d
    ensures var e := NextDelim(s, d, p + 1); WordsFrom(s, d, p) == [s[p..e]] + WordsFrom(s, d, e + 1)
  {
    SameEnd(s, d, p);
    hide NextDelim, TokensAt;
  }

  lemma SameEnd(s: string, d: char, p: nat)
    requires p < |s| && s[p] != d
    ensures NextDelim(s, d, p) == NextDelim(s, d, p + 1)
  {
  }

  lemma NothingLeft(s: string, d: char, p: nat)
    requires p >= |s|
    ensures TokensAt(s, d, p) == WordsFrom(s, d, p) && Clean(s, d, p)
  {
  }

  /** A word that is empty is no token. */
  lemma EmptyWord(s: string, d: char, q: nat)
    requires q < |s| && s[q] == d
    ensures TokensAt(s, d, q) != WordsFrom(s, d, q)
  {
    assert NextDelim(s, d, q) == q;
    assert |WordsFrom(s, d, q)[0]| == 0;
    assert |TokensAt(s, d, q)[0]| > 0;
  }

  lemma CleanFrom(s: string, d: char, p: nat, e: nat)
    requires p < |s| && s[p] != d && e == NextDelim(s, d, p + 1)
    ensures Clean(s, d, p) <==> (e + 1 < |s| ==> s[e + 1] != d) && Clean(s, d, e + 1)
  {
    hide NextDelim;
    if Clean(s, d, e + 1) && (e + 1 < |s| ==> s[e + 1] != d) {
      forall i | p <= i < |s| && s[i] == d ensures i > p && s[i - 1] != d {
        assert i >= e;
      }
    }
  }

  lemma SameRest(x: string, a: seq<string>, b: seq<string>)
    ensures [x] + a == [x] + b <==> a == b
  {
    assert ([x] + a)[1..] == a && ([x] + b)[1..] == b;
  }

  /** From a start that is no delimiter, tokens and words agree exactly on clean strings. */
  lemma {:induction false} AgreeFrom(s: string, d: char, p: nat)
    requires p < |s| ==> s[p] != d
    ensures TokensAt(s, d, p) == WordsFrom(s, d, p) <==> Clean(s, d, p)
    decreases |s| - p
  {
    hide NextDelim, TokensAt, WordsFrom, Clean;
    if p < |s| {
      var e := NextDelim(s, d, p + 1);
      FirstOfBoth(s, d, p, e);
      CleanFrom(s, d, p, e);
      SameRest(s[p..e], TokensAt(s, d, e + 1), WordsFrom(s, d, e + 1));
      if e + 1 < |s| && s[e + 1] == d { EmptyWord(s, d, e + 1); } else { AgreeFrom(s, d, e + 1); }
    } else {
      NothingLeft(s, d, p);
    }
  }

  /** The tokens of a string are its words if and only if no word is empty. */
  lemma TokensAreWords(s: string, d: char)
    ensures Rest(s, d, 0, 0) == Words(s, d) <==> Clean(s, d, 0)
  {
    if s != [] && s[0] == d {
      assert Rest(s, d, 0, 0)[0] != WordsFrom(s, d, 0)[0];
      assert !Clean(s, d, 0);
    } else {
      AgreeFrom(s, d, 0);
    }
  }

  /** A leading delimiter makes the tokenizer swallow a word. */
  lemma LeadingDelimiter()
    ensures Rest("/a/b", '/', 0, 0) == ["/", "b"]
  {
    var s := "/a/b";
    assert NextDelim(s, '/', 1) == 2;
    assert NextDelim(s, '/', 4) == 4;
    TokensUnfold(s, '/', 3);
    assert s[..1] == "/" && s[3..4] == "b";
  }
}
