/** cJSON_Minify as it runs: one buffer, a reading position and a writing position that never passes it. */
module MinifyInPlace {
  import opened CStrings
  import opened Minifying

  /** What the buffer still holds: the original text from the reading position on, with its NUL. */
  ghost predicate Unread(a: array<char>, t: string, r: nat)
    reads a
  {
    && |t| < a.Length && r <= |t|
    && a[|t|] == NUL
    && (forall i | 0 <= i < |t| :: t[i] != NUL)
    && forall i | r <= i < |t| :: a[i] == t[i]
  }

  lemma LineStep(t: string, r: nat)
    requires r < |t|
    ensures AfterLine(t[r..]) == if t[r] == '\n' then t[r + 1..] else AfterLine(t[r + 1..])
  {
    assert t[r..][1..] == t[r + 1..];
  }

  lemma CommentStep(t: string, r: nat)
    requires r < |t|
    ensures AfterComment(t[r..]) ==
            if r + 1 < |t| && t[r] == '*' && t[r + 1] == '/' then t[r + 2..] else AfterComment(t[r + 1..])
  {
    assert t[r..][1..] == t[r + 1..];
    assert r + 1 < |t| ==> t[r..][2..] == t[r + 2..];
  }

  lemma StringStep(t: string, r: nat)
    requires r < |t|
    ensures StringLength(t[r..]) ==
            if t[r] == '"' then 1
            else if t[r] == '\\' && r + 1 < |t| && t[r + 1] == '"' then 2 + StringLength(t[r + 2..])
            else 1 + StringLength(t[r + 1..])
  {
    assert t[r..][1..] == t[r + 1..];
    assert r + 1 < |t| ==> t[r..][2..] == t[r + 2..];
  }

  lemma MinifyStep(t: string, r: nat)
    requires r < |t|
    ensures IsBlank(t[r]) ==> Minify(t[r..]) == Minify(t[r + 1..])
    ensures t[r] == '/' ==>
              Minify(t[r..]) ==
              if r + 1 < |t| && t[r + 1] == '/' then Minify(AfterLine(t[r + 2..]))
              else if r + 1 < |t| && t[r + 1] == '*' then Minify(AfterComment(t[r + 2..]))
              else Minify(t[r + 1..])
    ensures t[r] == '"' ==>
              var n := r + 1 + StringLength(t[r + 1..]); n <= |t| && Minify(t[r..]) == t[r..n] + Minify(t[n..])
    ensures !IsBlank(t[r]) && t[r] != '/' && t[r] != '"' ==> Minify(t[r..]) == [t[r]] + Minify(t[r + 1..])
  {
    assert t[r..][1..] == t[r + 1..];
    assert r + 1 < |t| ==> t[r..][2..] == t[r + 2..];
    if t[r] == '"' {
      var k := 1 + StringLength(t[r + 1..]);
      assert t[r..][..k] == t[r..r + k] && t[r..][k..] == t[r + k..];
    }
  }

  /** skip_oneline_comment */
  method SkipLine(a: array<char>, start: nat, ghost t: string) returns (r: nat)
    requires Unread(a, t, start) && start + 2 <= |t|
    ensures start < r <= |t| && t[r..] == AfterLine(t[start + 2..])
  {
    hide AfterLine;
    r := start + 2;
    while a[r] != NUL
      invariant start + 2 <= r <= |t|
      invariant AfterLine(t[start + 2..]) == AfterLine(t[r..])
      decreases |t| - r
    {
      LineStep(t, r);
      if a[r] == '\n' {
        return r + 1;
      }
      r := r + 1;
    }
    NothingAfter();
  }

  lemma NothingAfter()
    ensures AfterLine("") == AfterComment("") == Minify("") == "" && StringLength("") == 0
  {
  }

  /** skip_multiline_comment */
  method SkipComment(a: array<char>, start: nat, ghost t: string) returns (r: nat)
    requires Unread(a, t, start) && start + 2 <= |t|
    ensures start < r <= |t| && t[r..] == AfterComment(t[start + 2..])
  {
    hide AfterComment;
    r := start + 2;
    while a[r] != NUL
      invariant start + 2 <= r <= |t|
      invariant AfterComment(t[start + 2..]) == AfterComment(t[r..])
      decreases |t| - r
    {
      CommentStep(t, r);
      if a[r] == '*' && a[r + 1] == '/' {
        return r + 2;
      }
      r := r + 1;
    }
    NothingAfter();
  }

  /** Of the buffer as it was, n characters from `from` on have been copied to `to`. */
  ghost predicate Copied(a: array<char>, was: string, from: nat, to: nat, n: nat)
    reads a
  {
    && to <= from && from + n <= |was| == a.Length
    && (forall i {:trigger a[i]} | to <= i < to + n :: a[i] == was[from + (i - to)])
    && forall i {:trigger a[i]} | 0 <= i < to || to + n <= i < a.Length :: a[i] == was[i]
  }

  /** The text in the buffer as it was, from the position on. */
  ghost predicate Source(was: string, t: string, from: nat) {
    && from <= |t| < |was| && was[|t|] == NUL
    && (forall i | 0 <= i < |t| :: t[i] != NUL) && forall i | from <= i < |t| :: was[i] == t[i]
  }

  lemma SourceIs(a: array<char>, t: string, from: nat)
    requires Unread(a, t, from)
    ensures Source(a[..], t, from)
  {
  }

  method CopyOne(a: array<char>, ghost was: string, ghost t: string, ghost from: nat, ghost to: nat, r: nat, w: nat)
    requires to <= w && Copied(a, was, from, to, w - to) && r == from + (w - to) < |t| < a.Length && Source(was, t, from)
    modifies a
    ensures Copied(a, was, from, to, w - to + 1) && Unread(a, t, r + 1) && a[r] == t[r]
  {
    hide Unread;
    a[w] := a[r];
    StillUnread(a, was, t, from, to, r + 1);
  }

  /** minify_string: copies a string, quotes included, from the reading to the writing position. */
  method CopyString(a: array<char>, from: nat, to: nat, ghost t: string) returns (r: nat, w: nat)
    requires Unread(a, t, from) && to <= from < |t| && t[from] == '"'
    modifies a
    ensures r == from + 1 + StringLength(t[from + 1..]) && w == to + (r - from)
    ensures Copied(a, old(a[..]), from, to, r - from) && r <= |t|
  {
    hide StringLength, Copied, Source;
    ghost var was := a[..];
    SourceIs(a, t, from);
    NothingCopied(a, from, to);
    CopyOne(a, was, t, from, to, from, to);
    r, w := from + 1, to + 1;
    while a[r] != NUL
      invariant from < r <= |t| < a.Length && w == to + (r - from)
      invariant Copied(a, was, from, to, r - from) && Unread(a, t, r)
      invariant StringLength(t[from + 1..]) == r - from - 1 + StringLength(t[r..])
      decreases |t| - r
    {
      StringStep(t, r);
      CopyOne(a, was, t, from, to, r, w);
      if a[r] == '"' {
        return r + 1, w + 1;
      } else if a[r] == '\\' && a[r + 1] == '"' {
        CopyOne(a, was, t, from, to, r + 1, w + 1);
        r, w := r + 1, w + 1;
      }
      r, w := r + 1, w + 1;
    }
    NothingAfter();
  }

  lemma NothingCopied(a: array<char>, from: nat, to: nat)
    requires to <= from <= a.Length
    ensures Copied(a, a[..], from, to, 0)
  {
  }

  /** Copying to the left leaves the text on the right to be read. */
  lemma StillUnread(a: array<char>, was: string, t: string, from: nat, to: nat, r: nat)
    requires from <= r <= |t| < a.Length && Copied(a, was, from, to, r - from) && Source(was, t, from)
    ensures Unread(a, t, r)
  {
  }

  lemma AfterIsSuffix(t: string)
    ensures AfterLine(t) == t[|t| - |AfterLine(t)|..] && AfterComment(t) == t[|t| - |AfterComment(t)|..]
  {
  }

  /** Minified text is made of characters of the original text. */
  lemma {:induction false} MinifyAddsNothing(t: string)
    ensures |Minify(t)| <= |t| && forall c | c in Minify(t) :: c in t
    decreases |t|
  {
    hide Minify, AfterLine, AfterComment, StringLength;
    NothingAfter();
    if t == "" {
      return;
    }
    MinifyStep(t, 0);
    assert t[0..] == t;
    if IsBlank(t[0]) {
      MinifyAddsNothing(t[1..]);
    } else if t[0] == '/' {
      if |t| > 1 { AfterIsSuffix(t[2..]); }
      if |t| > 1 && t[1] == '/' { MinifyAddsNothing(AfterLine(t[2..])); }
      else if |t| > 1 && t[1] == '*' { MinifyAddsNothing(AfterComment(t[2..])); }
      else { MinifyAddsNothing(t[1..]); }
    } else if t[0] == '"' {
      MinifyAddsNothing(t[1 + StringLength(t[1..])..]);
    } else {
      MinifyAddsNothing(t[1..]);
    }
  }

  /** Between two steps: the text minified so far, which is what the whole becomes before the rest. */
  ghost predicate Minified(a: array<char>, t: string, r: nat, w: nat, done: string)
    reads a
  {
    && w <= r && |done| == w && Unread(a, t, r)
    && (forall i | 0 <= i < w :: a[i] == done[i])
    && Minify(t) == done + Minify(t[r..])
  }

  lemma Passed(a: array<char>, t: string, r: nat, w: nat, done: string, r': nat)
    requires Minified(a, t, r, w, done) && r <= r' <= |t| && Minify(t[r..]) == Minify(t[r'..])
    ensures Minified(a, t, r', w, done)
  {
    hide Minify;
  }

  /** After a piece of the text has been copied. */
  lemma Taken(a: array<char>, was: string, t: string, r: nat, w: nat, done: string, n: nat, piece: string, rest: string)
    requires w <= r && |done| == w && Copied(a, was, r, w, n) && r + n <= |t| && Source(was, t, r)
    requires forall i | 0 <= i < w :: was[i] == done[i]
    requires piece == t[r..r + n] && rest == t[r + n..] && Minify(t) == done + (piece + Minify(rest))
    ensures Minified(a, t, r + n, w + n, done + piece)
    ensures forall i | |t| <= i < a.Length :: a[i] == was[i]
  {
    Longer(done, piece, Minify(rest));
    StillUnread(a, was, t, r, w, r + n);
    TakenText(a, was, t, r, w, done, n, piece);
    hide Minify, Copied, Unread;
  }

  lemma TakenText(a: array<char>, was: string, t: string, r: nat, w: nat, done: string, n: nat, piece: string)
    requires |done| == w && Copied(a, was, r, w, n) && r + n <= |t| < |was| && |piece| == n
    requires forall i | 0 <= i < n :: piece[i] == t[r + i] == was[r + i]
    requires forall i | 0 <= i < w :: was[i] == done[i]
    ensures forall i | 0 <= i < w + n :: a[i] == (done + piece)[i]
    ensures forall i | |t| <= i < a.Length :: a[i] == was[i]
  {
    forall i | 0 <= i < w + n ensures a[i] == (done + piece)[i] {
      if i >= w { assert piece[i - w] == was[r + (i - w)]; }
    }
  }

  lemma Longer(a: string, b: string, c: string)
    ensures (a + b) + c == a + (b + c)
  {
  }

  /** A string or an ordinary character, copied. */
  method Take(a: array<char>, r: nat, w: nat, ghost t: string, ghost done: string) returns (r': nat, w': nat, ghost done': string)
    requires Minified(a, t, r, w, done) && r < |t| && !IsBlank(t[r]) && t[r] != '/'
    modifies a
    ensures r' > r && Minified(a, t, r', w', done')
    ensures forall i | |t| <= i < a.Length :: a[i] == old(a[i])
  {
    hide Minify, StringLength, Copied;
    ghost var was, piece := a[..], [t[r]];
    MinifyStep(t, r);
    SourceIs(a, t, r);
    if a[r] == '"' {
      r', w' := CopyString(a, r, w, t);
      piece := t[r..r'];
    } else {
      NothingCopied(a, r, w);
      CopyOne(a, was, t, r, w, r, w);
      r', w' := r + 1, w + 1;
    }
    Taken(a, was, t, r, w, done, r' - r, piece, t[r'..]);
    done' := done + piece;
  }

  /** cJSON_Minify: the string in the buffer becomes its minified form, and what follows its NUL is kept. */
  method MinifyBuffer(a: array<char>)
    requires NUL in a[..]
    modifies a
    ensures UpToNul(a[..]) == Minify(UpToNul(old(a[..])))
    ensures forall i | |UpToNul(old(a[..]))| < i < a.Length :: a[i] == old(a[i])
  {
    hide StringLength, Minify, UpToNul, AfterLine, AfterComment, Minified;
    ghost var t := UpToNul(a[..]);
    ghost var done := "";
    var r, w: nat := 0, 0;
    MinifyStart(a, t);
    InBuffer(a, t, r, w, done);
    while a[r] != NUL
      invariant Minified(a, t, r, w, done) && w <= r <= |t| < a.Length && (a[r] == NUL <==> r == |t|)
      invariant forall i | |t| <= i < a.Length :: a[i] == old(a[i])
      decreases |t| - r
    {
      MinifyStep(t, r);
      InBuffer(a, t, r, w, done);
      ghost var start := r;
      if a[r] == ' ' || a[r] == '\t' || a[r] == '\r' || a[r] == '\n' {
        r := r + 1;
        Passed(a, t, start, w, done, r);
      } else if a[r] == '/' {
        if a[r + 1] == '/' {
          r := SkipLine(a, r, t);
        } else if a[r + 1] == '*' {
          r := SkipComment(a, r, t);
        } else {
          r := r + 1;
        }
        Passed(a, t, start, w, done, r);
      } else {
        r, w, done := Take(a, r, w, t, done);
      }
      InBuffer(a, t, r, w, done);
    }
    Finished(a, t, w, done);
    a[w] := NUL;
    assert a[..][..w] == done;
    NulAt(a[..], w);
  }

  lemma MinifyStart(a: array<char>, t: string)
    requires NUL in a[..] && t == UpToNul(a[..])
    ensures Minified(a, t, 0, 0, "")
  {
    assert t[0..] == t && "" + Minify(t) == Minify(t);
    hide Minify;
    assert forall i | 0 <= i < |t| :: t[i] in t;
  }

  lemma InBuffer(a: array<char>, t: string, r: nat, w: nat, done: string)
    requires Minified(a, t, r, w, done)
    ensures w <= r <= |t| < a.Length && Unread(a, t, r) && (a[r] == NUL <==> r == |t|)
    ensures r < |t| ==> a[r] == t[r] && a[r + 1] == if r + 1 < |t| then t[r + 1] else NUL
  {
    hide Minify;
  }

  lemma Finished(a: array<char>, t: string, w: nat, done: string)
    requires Minified(a, t, |t|, w, done)
    ensures Minify(t) == done && NUL !in done && |done| == w < a.Length && forall i | 0 <= i < w :: a[i] == done[i]
  {
    NothingAfter();
    assert t[|t|..] == "";
    MinifyAddsNothing(t);
    assert forall c | c in t :: c != NUL;
  }
}
