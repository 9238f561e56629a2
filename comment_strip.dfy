/**
 * The comment stripper at the head of zpl_json_parse: one left-to-right pass over the
 * text buffer that overwrites line comments (`//` to the end of the line) and block comments
 * (slash-star to star-slash) with blanks and steps over
 * quoted literals unchanged.
 *
 * `resume` is how far past the star-slash that closes a block comment the cursor lands: the
 * code as written lands one character further (resume 1), so that character is never
 * examined; the corrected stripper, which the parser uses, lands right after it
 * (resume 0).
 */
module CommentStrip {
  import opened Wrappers
  import opened ZplLib
  import opened JsonLex

  /** `zpl_memset(s + p, ' ', e - p)`. */
  function Blank(s: seq<char>, p: nat, e: nat): (r: seq<char>)
    requires p <= e <= |s|
    ensures |r| == |s|
    ensures forall i :: 0 <= i < |s| ==> r[i] == if p <= i < e then ' ' else s[i]
  {
    seq(|s|, i requires 0 <= i < |s| => if p <= i < e then ' ' else s[i])
  }

  /** `t` is `s` with some non-terminator characters in [lo, hi) turned into blanks. */
  predicate Blanked(s: seq<char>, t: seq<char>, lo: nat, hi: nat)
  {
    |t| == |s| &&
    forall i :: 0 <= i < |s| ==> t[i] == s[i] || (lo <= i < hi && s[i] != NUL && t[i] == ' ')
  }

  /** One pass of the loop body: it blanks [p, hi) and leaves the cursor at `next`. */
  datatype Advance = Advance(hi: nat, next: nat)

  /**
   * One pass of the `do { ... } while (*p)` body at cursor `p`; `None` when it reads
   * past the buffer (a quoted literal whose terminator follows a backslash).  The pass
   * reads only at and after `p`, where the buffer is still as the stripper found it,
   * so it is stated on the original buffer.
   */
  function StripStep(s: seq<char>, p: nat, resume: nat): (r: Option<Advance>)
    requires Terminated(s) && p < |s|
    ensures r.Some? ==> p <= r.value.hi <= r.value.next && p < r.value.next && r.value.hi < |s|
    ensures r.Some? ==> forall i :: p <= i < r.value.hi ==> s[i] != NUL
    ensures r.None? ==> IsQuote(s[p])
  {
    if IsQuote(s[p]) then
      match QuoteEnd(s, p + 1, s[p])
      case None => None
      case Some(e) => Some(Advance(p, e + 1))
    else if Pair(s, p, '/', '/') then
      var e := Skip(s, p, '\n');
      Some(Advance(e, e + 1))
    else if Pair(s, p, '/', '*') then
      var e := Skip(s, p + 2, '*');
      if s[e] != NUL && s[e + 1] == '/' then Some(Advance(e + 2, e + 2 + resume))
      else Some(Advance(p, p + 1))
    else Some(Advance(p, p + 1))
  }

  /**
   * The loop from cursor `p` on: the buffer once it ends, or `None` when the pass reads
   * past the buffer, either inside a step or at the loop test `*p`.
   */
  function StripFrom(s: seq<char>, p: nat, resume: nat): (r: Option<seq<char>>)
    requires Terminated(s) && p < |s|
    ensures r.Some? ==> Blanked(s, r.value, p, |s|) && Terminated(r.value)
    decreases |s| - p
  {
    match StripStep(s, p, resume)
    case None => None
    case Some(a) =>
      if a.next >= |s| then None
      else if s[a.next] == NUL then Some(Blank(s, p, a.hi))
      else
        match StripFrom(s, a.next, resume)
        case None => None
        case Some(rest) => Some(Blank(rest, p, a.hi))
  }

  /** The stripper as json.c:40-66 is written. */
  function StripAsWritten(s: seq<char>): (r: Option<seq<char>>)
    requires Terminated(s)
    ensures r.Some? ==> Blanked(s, r.value, 0, |s|) && Terminated(r.value)
  {
    StripFrom(s, 0, 1)
  }

  /**
   * The stripper with the cursor resuming right after the star-slash that closes a
   * block comment.
   */
  function Strip(s: seq<char>): (r: Option<seq<char>>)
    requires Terminated(s)
    ensures r.Some? ==> Blanked(s, r.value, 0, |s|) && Terminated(r.value)
  {
    StripFrom(s, 0, 0)
  }

  // ---------------------------------------------------------------------------
  // The positions the cursor visits

  /** Starting the loop at `p`, the body runs with the cursor at `q`. */
  predicate Reaches(s: seq<char>, p: nat, resume: nat, q: nat)
    requires Terminated(s) && p < |s|
    decreases |s| - p
  {
    p <= q &&
    (p == q ||
     (StripStep(s, p, resume).Some? &&
      var a := StripStep(s, p, resume).value;
      a.next < |s| && s[a.next] != NUL && Reaches(s, a.next, resume, q)))
  }

  /** Once the loop reaches `q`, the rest of the loop decides every character from `q` on. */
  lemma {:induction false} FromReached(s: seq<char>, p: nat, resume: nat, q: nat, r: seq<char>)
    requires Terminated(s) && p < |s| && StripFrom(s, p, resume) == Some(r)
    requires Reaches(s, p, resume, q)
    ensures q < |s| && StripFrom(s, q, resume).Some?
    ensures forall i :: q <= i < |s| ==> r[i] == StripFrom(s, q, resume).value[i]
    decreases |s| - p
  {
    if p != q {
      var a := StripStep(s, p, resume).value;
      FromReached(s, a.next, resume, q, StripFrom(s, a.next, resume).value);
    }
  }

  /** If the loop reaches `q` and the pass there does not end it, it reaches the next cursor too. */
  lemma {:induction false} ReachesNext(s: seq<char>, p: nat, resume: nat, q: nat)
    requires Terminated(s) && p < |s| && q < |s| && Reaches(s, p, resume, q)
    requires StripStep(s, q, resume).Some?
    requires var a := StripStep(s, q, resume).value; a.next < |s| && s[a.next] != NUL
    ensures Reaches(s, p, resume, StripStep(s, q, resume).value.next)
    decreases |s| - p
  {
    if p == q {
      var a := StripStep(s, q, resume).value;
      assert Reaches(s, a.next, resume, a.next);
    } else {
      ReachesNext(s, StripStep(s, p, resume).value.next, resume, q);
    }
  }

  // ---------------------------------------------------------------------------
  // What the stripper does at each position it visits

  /** What one pass at `p` contributes to the final buffer. */
  lemma StepEffect(s: seq<char>, p: nat, resume: nat)
    requires Terminated(s) && p < |s| && StripFrom(s, p, resume).Some?
    ensures StripStep(s, p, resume).Some?
    ensures var a := StripStep(s, p, resume).value; var r := StripFrom(s, p, resume).value;
      a.next < |s| &&
      (forall i :: p <= i < a.hi ==> r[i] == ' ') &&
      (forall i :: a.hi <= i < a.next ==> r[i] == s[i]) &&
      (s[a.next] == NUL ==> forall i :: a.next <= i < |s| ==> r[i] == s[i]) &&
      (s[a.next] != NUL ==>
         StripFrom(s, a.next, resume).Some? &&
         forall i :: a.next <= i < |s| ==> r[i] == StripFrom(s, a.next, resume).value[i])
  {
  }

  /**
   * A quoted literal, from its opening quote to its first unescaped closing quote, is
   * left as it was by the pass at its opening quote and by the rest of the loop.  With
   * FromReached this holds at every cursor the loop visits.
   */
  lemma QuotedUntouched(s: seq<char>, resume: nat, q: nat, e: nat, r: seq<char>)
    requires Terminated(s) && q < |s| && StripFrom(s, q, resume) == Some(r)
    requires IsQuote(s[q]) && QuoteEnd(s, q + 1, s[q]) == Some(e)
    ensures forall i :: q <= i <= e ==> r[i] == s[i]
  {
    StepEffect(s, q, resume);
  }

  /** A line comment is blanked up to, and not including, the next newline or terminator. */
  lemma LineCommentBlanked(s: seq<char>, resume: nat, q: nat, r: seq<char>)
    requires Terminated(s) && q < |s| && StripFrom(s, q, resume) == Some(r)
    requires !IsQuote(s[q]) && Pair(s, q, '/', '/')
    ensures var e := Skip(s, q, '\n');
      (forall i :: q <= i < e ==> r[i] == ' ') && r[e] == s[e]
  {
    StepEffect(s, q, resume);
  }

  /** The pass at a block opener: how far it blanks and where the cursor lands. */
  lemma BlockStep(s: seq<char>, resume: nat, q: nat)
    requires Terminated(s) && q < |s|
    requires !IsQuote(s[q]) && !Pair(s, q, '/', '/') && Pair(s, q, '/', '*')
    ensures var e := Skip(s, q + 2, '*');
      StripStep(s, q, resume) ==
        if s[e] != NUL && s[e + 1] == '/' then Some(Advance(e + 2, e + 2 + resume))
        else Some(Advance(q, q + 1))
  {
  }

  /** The pass at a quote steps over the quoted literal. */
  lemma QuoteStep(s: seq<char>, q: nat)
    requires Terminated(s) && q < |s| && IsQuote(s[q])
    ensures StripStep(s, q, 0) ==
      match QuoteEnd(s, q + 1, s[q]) case None => None case Some(e) => Some(Advance(q, e + 1))
  {
  }

  /** The pass at a line comment blanks up to the end of the line. */
  lemma LineStep(s: seq<char>, q: nat)
    requires Terminated(s) && q < |s| && !IsQuote(s[q]) && Pair(s, q, '/', '/')
    ensures StripStep(s, q, 0) == Some(Advance(Skip(s, q, '\n'), Skip(s, q, '\n') + 1))
  {
  }

  /** Any other character is stepped over. */
  lemma PlainStep(s: seq<char>, q: nat)
    requires Terminated(s) && q < |s| && !IsQuote(s[q]) && !Pair(s, q, '/', '/') && !Pair(s, q, '/', '*')
    ensures StripStep(s, q, 0) == Some(Advance(q, q + 1))
  {
  }

  /** A closed block comment is blanked through its closing star-slash. */
  lemma BlockCommentBlanked(s: seq<char>, resume: nat, q: nat, r: seq<char>)
    requires Terminated(s) && q < |s| && StripFrom(s, q, resume) == Some(r)
    requires !IsQuote(s[q]) && !Pair(s, q, '/', '/') && Pair(s, q, '/', '*')
    requires var e := Skip(s, q + 2, '*'); s[e] != NUL && s[e + 1] == '/'
    ensures forall i :: q <= i < Skip(s, q + 2, '*') + 2 ==> r[i] == ' '
  {
    BlockStep(s, resume, q);
    StepEffect(s, q, resume);
  }

  /**
   * A block opener whose first following star is not followed by a slash is kept, and
   * the cursor moves on by one.
   */
  lemma UnclosedBlockComment(s: seq<char>, resume: nat, q: nat, r: seq<char>)
    requires Terminated(s) && q < |s| && StripFrom(s, q, resume) == Some(r)
    requires !IsQuote(s[q]) && !Pair(s, q, '/', '/') && Pair(s, q, '/', '*')
    requires var e := Skip(s, q + 2, '*'); !(s[e] != NUL && s[e + 1] == '/')
    ensures r[q] == '/' && StripStep(s, q, resume) == Some(Advance(q, q + 1))
  {
    BlockStep(s, resume, q);
    StepEffect(s, q, resume);
  }

  /**
   * After a closed block comment the loop, run from the start, continues at the
   * character `resume` places past the closing slash: for the corrected stripper, the
   * very next character.
   */
  lemma BlockCommentResumes(s: seq<char>, resume: nat, q: nat)
    requires Terminated(s) && q < |s| && Reaches(s, 0, resume, q)
    requires !IsQuote(s[q]) && !Pair(s, q, '/', '/') && Pair(s, q, '/', '*')
    requires var e := Skip(s, q + 2, '*');
      s[e] != NUL && s[e + 1] == '/' && e + 2 + resume < |s| && s[e + 2 + resume] != NUL
    ensures Reaches(s, 0, resume, Skip(s, q + 2, '*') + 2 + resume)
  {
    BlockStep(s, resume, q);
    ReachesNext(s, 0, resume, q);
  }

  /**
   * As written, a string directly after a block comment is mistaken for comment text:
   * after an empty block comment the opening quote of `"//"` is stepped over, so `//"`
   * is blanked as a line comment.  The corrected stripper leaves the string alone.
   */
  lemma AsWrittenBlanksString()
    ensures StripAsWritten("/**/\"//\"\n\0") == Some("    \"   \n\0")
    ensures Strip("/**/\"//\"\n\0") == Some("    \"//\"\n\0")
  {
    var s := "/**/\"//\"\n\0";
    assert Skip(s, 2, '*') == 2;
    assert StripStep(s, 0, 1) == Some(Advance(4, 5));
    assert Skip(s, 5, '\n') == 8;
    assert StripStep(s, 5, 1) == Some(Advance(8, 9));
    assert StripFrom(s, 5, 1) == Some(Blank(s, 5, 8));
    assert Blank(Blank(s, 5, 8), 0, 4) == "    \"   \n\0";
    assert StripStep(s, 0, 0) == Some(Advance(4, 4));
    assert Skip(s, 5, '"') == 7;
    assert QuoteEnd(s, 5, '"') == Some(7);
    assert StripStep(s, 4, 0) == Some(Advance(4, 8));
    assert StripStep(s, 8, 0) == Some(Advance(8, 9));
    assert StripFrom(s, 8, 0) == Some(Blank(s, 8, 8));
    assert StripFrom(s, 4, 0) == Some(Blank(Blank(s, 8, 8), 4, 4));
    assert Blank(Blank(Blank(s, 8, 8), 4, 4), 0, 4) == "    \"//\"\n\0";
  }

  /**
   * As written, a block comment that closes right before the terminator makes the
   * cursor step past it: the loop's next test reads outside the buffer.  The corrected
   * stripper stops at the terminator.
   */
  lemma AsWrittenOverruns()
    ensures StripAsWritten("/**/\0").None?
    ensures Strip("/**/\0") == Some("    \0")
  {
    var s := "/**/\0";
    assert Skip(s, 2, '*') == 2;
    assert StripStep(s, 0, 1) == Some(Advance(4, 5));
    assert StripStep(s, 0, 0) == Some(Advance(4, 4));
    assert Blank(s, 0, 4) == "    \0";
  }

  // ---------------------------------------------------------------------------
  // The pass over the buffer, in place

  /**
   * The loop's bookkeeping across one pass at `p`: the buffer `b` holds the final
   * text before `p` and the original text from `p` on; blanking [p, hi) makes it hold
   * the final text before the next cursor and the original text after it.
   */
  lemma StepKeeps(s0: seq<char>, want: seq<char>, b: seq<char>, p: nat)
    requires Terminated(s0) && p < |s0| && StripFrom(s0, p, 0).Some?
    requires |b| == |s0| && |want| == |s0|
    requires forall i :: p <= i < |s0| ==> b[i] == s0[i] && want[i] == StripFrom(s0, p, 0).value[i]
    requires forall i :: 0 <= i < p ==> b[i] == want[i]
    ensures StripStep(s0, p, 0).Some?
    ensures var a := StripStep(s0, p, 0).value; var b' := Blank(b, p, a.hi);
      a.next < |s0| && Terminated(b') &&
      (forall i :: 0 <= i < a.next ==> b'[i] == want[i]) &&
      (s0[a.next] == NUL ==> b' == want) &&
      (s0[a.next] != NUL ==>
         StripFrom(s0, a.next, 0).Some? &&
         forall i :: a.next <= i < |s0| ==> b'[i] == s0[i] && want[i] == StripFrom(s0, a.next, 0).value[i])
  {
    StepEffect(s0, p, 0);
  }

  /** The stripper of zpl_json_parse (with the corrected block-comment advance), in place. */
  method StripComments(buf: array<char>)
    requires Terminated(buf[..]) && Strip(buf[..]).Some?
    modifies buf
    ensures buf[..] == Strip(old(buf[..])).value
  {
    ghost var s0 := buf[..];
    ghost var want := Strip(s0).value;
    var p := 0;
    while true
      invariant p < buf.Length && Terminated(buf[..])
      invariant StripFrom(s0, p, 0).Some?
      invariant forall i :: p <= i < buf.Length ==> buf[i] == s0[i] && want[i] == StripFrom(s0, p, 0).value[i]
      invariant forall i :: 0 <= i < p ==> buf[i] == want[i]
      decreases buf.Length - p
    {
      ghost var b := buf[..];
      StepKeeps(s0, want, b, p);
      ghost var a := StripStep(s0, p, 0).value;
      var next := PassAt(buf, p, s0);
      p := next;
      if buf[p] == NUL {
        break;
      }
    }
  }

  /**
   * One pass of the loop body at cursor `p`, where the buffer still agrees with the
   * original text `s0`; it returns the next cursor.
   */
  method PassAt(buf: array<char>, p: nat, ghost s0: seq<char>) returns (next: nat)
    requires Terminated(s0) && |s0| == buf.Length && p < buf.Length
    requires forall i :: p <= i < buf.Length ==> buf[i] == s0[i]
    requires StripStep(s0, p, 0).Some?
    modifies buf
    ensures var a := StripStep(s0, p, 0).value;
      next == a.next && buf[..] == Blank(old(buf[..]), p, a.hi)
  {
    ghost var b := buf[..];
    if IsQuote(buf[p]) {
      QuoteStep(s0, p);
      var e := QuoteScan(buf, p, s0);
      next := e + 1;
      assert buf[..] == Blank(b, p, p);
    } else if p + 1 < buf.Length && buf[p] == '/' && buf[p + 1] == '/' {
      LineStep(s0, p);
      next := LinePass(buf, p, s0);
    } else if p + 1 < buf.Length && buf[p] == '/' && buf[p + 1] == '*' {
      BlockStep(s0, 0, p);
      next := BlockPass(buf, p, s0);
    } else {
      PlainStep(s0, p);
      next := p + 1;
      assert buf[..] == Blank(b, p, p);
    }
  }

  /** The pass at a line comment: blank up to the newline or terminator, and step past it. */
  method LinePass(buf: array<char>, p: nat, ghost s0: seq<char>) returns (next: nat)
    requires Terminated(s0) && |s0| == buf.Length && p < buf.Length
    requires forall i :: p <= i < buf.Length ==> buf[i] == s0[i]
    modifies buf
    ensures next == Skip(s0, p, '\n') + 1 && buf[..] == Blank(old(buf[..]), p, Skip(s0, p, '\n'))
  {
    SkipLocal(s0, buf[..], p, p, '\n');
    var e := Skip(buf[..], p, '\n');
    BlankRange(buf, p, e);
    next := e + 1;
  }

  /**
   * The pass at a block opener: blank through the star-slash that follows the first
   * star, or step over the opener when that star is not followed by a slash.
   */
  method BlockPass(buf: array<char>, p: nat, ghost s0: seq<char>) returns (next: nat)
    requires Terminated(s0) && |s0| == buf.Length && p + 1 < buf.Length && s0[p] == '/' && s0[p + 1] == '*'
    requires forall i :: p <= i < buf.Length ==> buf[i] == s0[i]
    modifies buf
    ensures var e := Skip(s0, p + 2, '*');
      if s0[e] != NUL && s0[e + 1] == '/' then next == e + 2 && buf[..] == Blank(old(buf[..]), p, e + 2)
      else next == p + 1 && buf[..] == Blank(old(buf[..]), p, p)
  {
    SkipLocal(s0, buf[..], p, p + 2, '*');
    var e := Skip(buf[..], p + 2, '*');
    if buf[e] != NUL && buf[e + 1] == '/' {
      BlankRange(buf, p, e + 2);
      next := e + 2;
    } else {
      next := p + 1;
      assert buf[..] == Blank(buf[..], p, p);
    }
  }

  /** `zpl_memset(buf + p, ' ', e - p)`. */
  method BlankRange(buf: array<char>, p: nat, e: nat)
    requires p <= e <= buf.Length
    modifies buf
    ensures buf[..] == Blank(old(buf[..]), p, e)
  {
    forall i | p <= i < e {
      buf[i] := ' ';
    }
  }
}
