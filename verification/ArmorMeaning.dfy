/**
 What reading armor does, apart from how it is written: the searches find the least
 place of their kind, and any text laid out as armor, with lines of comment and with
 other text around it, stands for its data exactly when the checksum is right.
 */
module ArmorMeaning {
  import opened PacketLength
  import opened Base64
  import opened Armor
  import opened ArmorDecode
  import opened Sequences

  /** find_str: no occurrence comes before the one found, and none exists when none is found. */
  lemma {:induction false} FirstIsLeast(s: seq<Byte>, t: seq<Byte>, p: nat)
    ensures match First(s, t, p)
      case At(i) => p <= i && OccursAt(s, t, i) && forall j :: p <= j < i ==> !OccursAt(s, t, j)
      case Missing => forall j :: p <= j ==> !OccursAt(s, t, j)
    decreases |s| - p
  {
    if p + |t| <= |s| && !OccursAt(s, t, p) { FirstIsLeast(s, t, p + 1); }
  }

  /** The separator at the start of a line. */
  ghost predicate StartsLine(s: seq<Byte>, sep: seq<Byte>, i: nat) {
    OccursAt(s, sep, i) && (i == 0 || s[i - 1] == NEWLINE)
  }

  /** The search of find_header: the first separator that starts a line, although the search jumps over others. */
  lemma {:induction false} FirstLineIsLeast(s: seq<Byte>, sep: seq<Byte>, p: nat)
    requires |sep| > 0 && NEWLINE !in sep
    ensures match FirstLine(s, sep, p)
      case At(i) => p <= i && StartsLine(s, sep, i) && forall j :: p <= j < i ==> !StartsLine(s, sep, j)
      case Missing => forall j :: p <= j ==> !StartsLine(s, sep, j)
    decreases |s| - p
  {
    hide First;
    FirstIsLeast(s, sep, p);
    var f := First(s, sep, p);
    if f.At? && !StartsLine(s, sep, f.i) {
      forall j | f.i < j < f.i + |sep| ensures !StartsLine(s, sep, j) {
        assert s[j - 1] == s[f.i..f.i + |sep|][j - 1 - f.i] == sep[j - 1 - f.i];
      }
      FirstLineIsLeast(s, sep, f.i + |sep|);
    }
  }

  /** A control character comes before any dash. */
  ghost predicate Blocked(s: seq<Byte>, p: nat, j: nat) {
    p <= j < |s| && s[j] < 32 && forall i :: p <= i < j ==> s[i] != DASH
  }

  /** The text of a header line ends at its first dash, and no control character comes before it. */
  lemma {:induction false} TextEndIs(s: seq<Byte>, p: nat)
    requires p <= |s|
    ensures match TextEnd(s, p)
      case At(e) => p <= e <= |s| && (e == |s| || s[e] == DASH) && forall j :: p <= j < e ==> s[j] != DASH && s[j] >= 32
      case Missing => exists j :: Blocked(s, p, j)
    decreases |s| - p
  {
    if p < |s| && s[p] != DASH {
      if s[p] < 32 {
        assert Blocked(s, p, p);
      } else {
        TextEndIs(s, p + 1);
        if TextEnd(s, p + 1).Missing? {
          var j :| Blocked(s, p + 1, j);
          assert Blocked(s, p, j);
        }
      }
    }
  }

  /** A place where a line starts that is empty, or where the armor ends. */
  ghost predicate Stop(s: seq<Byte>, p: nat, end: nat, i: nat)
    requires end <= |s|
  {
    && p <= i <= end && (i == p || s[i - 1] == NEWLINE)
    && (i == end || s[i] == NEWLINE || s[i] == RETURN)
  }

  /** The comment lines end at the first such place, and are never ended when there is none. */
  lemma {:induction false} CommentsIs(s: seq<Byte>, p: nat, end: nat)
    requires p <= end < |s|
    ensures match Comments(s, p, end)
      case At(i) => Stop(s, p, end, i) && forall j :: p <= j < i ==> !Stop(s, p, end, j)
      case Missing => forall j :: p <= j ==> !Stop(s, p, end, j)
    decreases end - p
  {
    hide First;
    if p < end && s[p] != NEWLINE && s[p] != RETURN {
      BreakIsLeast(s, p, end);
      var f := First(s[..end], [NEWLINE], p);
      if f.At? {
        CommentsIs(s, f.i + 1, end);
        forall j | f.i < j ensures Stop(s, p, end, j) == Stop(s, f.i + 1, end, j) {}
      }
    }
  }

  lemma BreakIsLeast(s: seq<Byte>, p: nat, end: nat)
    requires p <= end <= |s|
    ensures match First(s[..end], [NEWLINE], p)
      case At(k) => p <= k < end && s[k] == NEWLINE && forall j :: p <= j < k ==> s[j] != NEWLINE
      case Missing => forall j :: p <= j < end ==> s[j] != NEWLINE
  {
    hide First;
    FirstIsLeast(s[..end], [NEWLINE], p);
    forall j | p <= j < end ensures OccursAt(s[..end], [NEWLINE], j) == (s[j] == NEWLINE) {
      assert s[..end][j..j + 1] == [s[j]];
    }
  }

  /** The first such place is the one found. */
  lemma CommentsAt(s: seq<Byte>, p: nat, end: nat, i: nat)
    requires p <= end < |s| && Stop(s, p, end, i) && forall j :: p <= j < i ==> !Stop(s, p, end, j)
    ensures Comments(s, p, end) == At(i)
  {
    hide Comments;
    CommentsIs(s, p, end);
  }

  /** Comment lines, each with its line break. */
  function Lines(ls: seq<seq<Byte>>): (t: seq<Byte>) {
    if ls == [] then [] else ls[0] + [NEWLINE] + Lines(ls[1..])
  }

  /** A line that is not empty and has neither dashes nor line breaks in it. */
  ghost predicate IsComment(l: seq<Byte>) {
    l != [] && forall i :: 0 <= i < |l| ==> l[i] != DASH && l[i] != NEWLINE && l[i] != RETURN
  }

  ghost predicate Begins(t: seq<Byte>, j: nat)
    requires j < |t|
  {
    j == 0 || t[j - 1] == NEWLINE
  }

  /** No line is empty, and the last one is ended. */
  ghost predicate FullLines(t: seq<Byte>) {
    && (t != [] ==> t[|t| - 1] == NEWLINE)
    && forall j :: 0 <= j < |t| && Begins(t, j) ==> t[j] != NEWLINE && t[j] != RETURN
  }

  lemma {:induction false} LinesHold(ls: seq<seq<Byte>>)
    requires forall k :: 0 <= k < |ls| ==> IsComment(ls[k])
    ensures Clean(Lines(ls)) && FullLines(Lines(ls))
  {
    if ls != [] {
      assert IsComment(ls[0]);
      LinesHold(ls[1..]);
      LineBefore(ls[0], Lines(ls[1..]));
    }
  }

  lemma LineBefore(l: seq<Byte>, b: seq<Byte>)
    requires IsComment(l) && Clean(b) && FullLines(b)
    ensures Clean(l + [NEWLINE] + b) && FullLines(l + [NEWLINE] + b)
  {
    var a, t := l + [NEWLINE], l + [NEWLINE] + b;
    assert t[|l| - 1] == l[|l| - 1];
    forall j | 0 <= j < |t| && Begins(t, j) ensures t[j] != NEWLINE && t[j] != RETURN {
      if j < |l| {
        assert t[j] == l[j];
      } else if j > |l| {
        assert t[j] == b[j - |a|] && (j > |a| ==> t[j - 1] == b[j - |a| - 1]);
        assert Begins(b, j - |a|);
      }
    }
  }

  /** A line break, or a carriage return and a line break. */
  ghost predicate IsEol(e: seq<Byte>) {
    e == [NEWLINE] || e == [RETURN, NEWLINE]
  }

  ghost predicate IsTitle(t: seq<Byte>) {
    forall i :: 0 <= i < |t| ==> t[i] != DASH && t[i] >= 32
  }

  /** A header line wherever it is the first thing with a dash. */
  lemma HeaderFound(pre: seq<Byte>, sep: seq<Byte>, title: seq<Byte>, eol: seq<Byte>, post: seq<Byte>)
    requires |sep| > 0 && sep[0] == DASH && Clean(pre) && (pre == [] || pre[|pre| - 1] == NEWLINE)
    requires IsTitle(title) && IsEol(eol)
    ensures var head := sep + title + DASHES + eol;
      HeaderLine(pre + head + post, sep) == Line(|pre|, |pre| + |head|)
  {
    hide First, TextEnd, LineEnd, OccursAt;
    var head := sep + title + DASHES + eol;
    var s, k, e := pre + head + post, |pre|, |pre| + |sep| + |title|;
    HeadBytes(pre, sep, title, eol, post);
    FirstSkips(s, sep, 0, k);
    FoundHere(s, sep, k);
    TextEndAt(s, k + |sep|, e);
    EolEnds(s, e, eol);
  }

  /** The bytes of a header line inside a text. */
  lemma HeadBytes(pre: seq<Byte>, sep: seq<Byte>, title: seq<Byte>, eol: seq<Byte>, post: seq<Byte>)
    requires |sep| > 0 && sep[0] == DASH && Clean(pre) && (pre == [] || pre[|pre| - 1] == NEWLINE)
    requires IsTitle(title) && IsEol(eol)
    ensures var s, k, e := pre + (sep + title + DASHES + eol) + post, |pre|, |pre| + |sep| + |title|;
      && e + 5 + |eol| <= |s| && OccursAt(s, sep, k) && OccursAt(s, DASHES, e) && s[e] == DASH
      && (forall i :: 0 <= i < k ==> s[i] != DASH) && (k == 0 || s[k - 1] == NEWLINE)
      && (forall i :: k + |sep| <= i < e ==> s[i] != DASH && s[i] >= 32) && s[e + 5..e + 5 + |eol|] == eol
  {
    var head := sep + title + DASHES + eol;
    HeadIndex(sep, title, eol);
    Piece(pre, head, post);
    HeadPlaced(pre + head + post, |pre|, head, sep, title, eol);
  }

  /** What stands where in three pieces put together. */
  lemma Piece<T>(a: seq<T>, m: seq<T>, z: seq<T>)
    ensures var s := a + m + z;
      && |s| == |a| + |m| + |z| && (forall i :: 0 <= i < |a| ==> s[i] == a[i])
      && s[|a|..|a| + |m|] == m && forall i :: 0 <= i < |z| ==> s[|a| + |m| + i] == z[i]
  {}

  /** What stands where in a header line. */
  ghost predicate HeadIs(head: seq<Byte>, sep: seq<Byte>, title: seq<Byte>, eol: seq<Byte>) {
    && |head| == |sep| + |title| + 5 + |eol|
    && head[..|sep|] == sep && head[|sep|..|sep| + |title|] == title
    && head[|sep| + |title|..|sep| + |title| + 5] == DASHES && head[|sep| + |title| + 5..] == eol
  }

  lemma HeadIndex(sep: seq<Byte>, title: seq<Byte>, eol: seq<Byte>)
    ensures HeadIs(sep + title + DASHES + eol, sep, title, eol)
  {
    var a := sep + title;
    assert |DASHES| == 5;
    Piece(a, DASHES, eol);
    assert (a + DASHES + eol)[..|a|] == a;
  }

  lemma Inside<T>(s: seq<T>, k: nat, m: seq<T>, i: nat, j: nat)
    requires k + |m| <= |s| && s[k..k + |m|] == m && i <= j <= |m|
    ensures s[k + i..k + j] == m[i..j]
  {
    forall x | 0 <= x < j - i ensures s[k + i..k + j][x] == m[i..j][x] {
      assert s[k + i + x] == s[k..k + |m|][i + x];
    }
  }

  lemma Rest<T>(a: seq<T>, m: seq<T>, z: seq<T>)
    ensures (a + m + z)[|a| + |m|..] == z
  {}

  lemma HeadPlaced(s: seq<Byte>, k: nat, head: seq<Byte>, sep: seq<Byte>, title: seq<Byte>, eol: seq<Byte>)
    requires k + |head| <= |s| && s[k..k + |head|] == head && HeadIs(head, sep, title, eol)
    requires IsTitle(title)
    ensures var e := k + |sep| + |title|;
      && e + 5 + |eol| <= |s| && OccursAt(s, sep, k) && OccursAt(s, DASHES, e) && s[e] == DASH
      && (forall i :: k + |sep| <= i < e ==> s[i] != DASH && s[i] >= 32) && s[e + 5..e + 5 + |eol|] == eol
  {
    var e, n := k + |sep| + |title|, |sep| + |title|;
    Inside(s, k, head, 0, |sep|);
    Inside(s, k, head, n, n + 5);
    assert s[e] == s[e..e + 5][0];
    Inside(s, k, head, n + 5, |head|);
    forall i | k + |sep| <= i < e ensures s[i] != DASH && s[i] >= 32 {
      assert s[i] == head[i - k] == head[|sep|..n][i - k - |sep|];
    }
  }

  lemma FoundHere(s: seq<Byte>, sep: seq<Byte>, k: nat)
    requires OccursAt(s, sep, k)
    ensures First(s, sep, k) == At(k)
  {}

  lemma EolEnds(s: seq<Byte>, e: nat, eol: seq<Byte>)
    requires e + 5 + |eol| <= |s| && OccursAt(s, DASHES, e) && IsEol(eol) && s[e + 5..e + 5 + |eol|] == eol
    ensures LineEnd(s, e) == At(e + 5 + |eol|)
  {
    hide OccursAt;
    assert s[e + 5] == eol[0];
    if |eol| == 2 { assert s[e + 6] == eol[1]; }
  }

  /** Armor around a body w and the checksum v, with comments in it and other text before and after. */
  function Wrapping(pre: seq<Byte>, title: seq<Byte>, eol: seq<Byte>, ls: seq<seq<Byte>>, w: seq<Byte>, v: int,
                    post: seq<Byte>): (s: seq<Byte>)
    requires 0 <= v < 0x100_0000
  {
    pre + (START_SEP + title + DASHES + eol) + (Lines(ls) + w + [PAD] + Four(v) + FOOTER + post)
  }

  /** The body of armor: it starts with an empty line, ends with a byte that is dropped, and has no dashes. */
  ghost predicate IsBody(w: seq<Byte>) {
    |w| >= 1 && (w[0] == NEWLINE || w[0] == RETURN) && Clean(w)
  }

  /** What the body stands for, if the checksum is the one of the data. */
  function Meaning(w: seq<Byte>, v: int): (r: Bytes)
    requires |w| >= 1
  {
    match Decode(w[..|w| - 1])
    case Bad => Bad
    case Ok(d) => if Checksum(d) == v then Ok(d) else Bad
  }

  lemma FooterFound(front: seq<Byte>, post: seq<Byte>)
    requires Clean(front)
    ensures var l := HeaderLine(front + FOOTER + post, END_SEP); l.Line? && l.start == |front| + 1
  {
    hide HeaderLine;
    var pre, head := front + [NEWLINE], END_SEP + TITLE + DASHES + [NEWLINE];
    assert front + FOOTER + post == pre + head + post;
    TitleHolds();
    HeaderFound(pre, END_SEP, TITLE, [NEWLINE], post);
  }

  lemma TitleHolds()
    ensures IsTitle(TITLE) && END_SEP[0] == DASH && START_SEP[0] == DASH && |START_SEP| == 10 && |END_SEP| == 8
  {}

  /** The decoder on a text whose parts have been found. */
  lemma DearmoredAt(s: seq<Byte>, p: nat, e: nat, b: nat, q: nat)
    requires HeaderLine(s, START_SEP).Line? && HeaderLine(s, START_SEP).next == p <= |s|
    requires HeaderLine(s[p..], END_SEP).Line? && HeaderLine(s[p..], END_SEP).start == e
    requires p + e + 8 <= |s| && Comments(s, p, p + e) == At(b) && b <= p + e && LastPad(s, b, p + e) == At(q)
    requires b < q && q + 5 <= |s|
    ensures Dearmored(s) == Checked(s, b, q)
  {
    hide HeaderLine, LastPad, Checked, Comments;
  }

  /** The bytes between header and footer. */
  lemma InnerBytes(s: seq<Byte>, p: nat, t: seq<Byte>, w: seq<Byte>, c: seq<Byte>, post: seq<Byte>)
    requires p <= |s| && s[p..] == t + w + [PAD] + c + FOOTER + post && |c| == 4 && |w| >= 1
    ensures var b := p + |t|; var q := b + |w|;
      && q + 32 <= |s| && s[p..b] == t && s[b..q] == w && s[b..q - 1] == w[..|w| - 1]
      && s[q] == PAD && s[q + 1..q + 5] == c && s[q + 5] == NEWLINE && s[q + 6] == DASH
  {
    var x := t + w + [PAD] + c;
    FooterParts();
    Piece(t + w, [PAD], c);
    Piece(t, w, []);
    assert t + w + [] == t + w;
    Piece(x, FOOTER, post);
    InnerPlaced(s, p, s[p..], t, w, c);
  }

  lemma InnerPlaced(s: seq<Byte>, p: nat, r: seq<Byte>, t: seq<Byte>, w: seq<Byte>, c: seq<Byte>)
    requires p <= |s| && r == s[p..] && |c| == 4 && |w| >= 1 && |r| >= |t| + |w| + 32
    requires forall i :: 0 <= i < |t| + |w| ==> r[i] == (t + w)[i]
    requires r[|t| + |w|] == PAD && forall i :: 0 <= i < 4 ==> r[|t| + |w| + 1 + i] == c[i]
    requires r[|t| + |w| + 5] == NEWLINE && r[|t| + |w| + 6] == DASH
    ensures var b := p + |t|; var q := b + |w|;
      && q + 32 <= |s| && s[p..b] == t && s[b..q] == w && s[b..q - 1] == w[..|w| - 1]
      && s[q] == PAD && s[q + 1..q + 5] == c && s[q + 5] == NEWLINE && s[q + 6] == DASH
  {
    var b, q := p + |t|, p + |t| + |w|;
    assert forall i :: 0 <= i < |r| ==> s[p + i] == r[i];
    forall i | 0 <= i < |t| ensures s[p + i] == t[i] {
      assert r[i] == (t + w)[i];
    }
    forall i | 0 <= i < |w| ensures s[b + i] == w[i] {
      assert s[b + i] == r[|t| + i] == (t + w)[|t| + i];
    }
    assert s[b..q - 1] == w[..|w| - 1];
    forall i | 0 <= i < 4 ensures s[q + 1 + i] == c[i] {
      assert s[q + 1 + i] == r[|t| + |w| + 1 + i];
    }
  }

  /** Where the comments end. */
  lemma InnerComments(s: seq<Byte>, p: nat, b: nat, end: nat)
    requires p <= b < end < |s| && FullLines(s[p..b]) && (s[b] == NEWLINE || s[b] == RETURN)
    ensures Comments(s, p, end) == At(b)
  {
    hide Comments;
    var t := s[p..b];
    assert b > p ==> s[b - 1] == t[|t| - 1];
    assert Stop(s, p, end, b);
    forall j | p <= j < b ensures !Stop(s, p, end, j) {
      assert s[j] == t[j - p] && (j > p ==> s[j - 1] == t[j - p - 1]);
      assert Begins(t, j - p) ==> t[j - p] != NEWLINE && t[j - p] != RETURN;
    }
    CommentsAt(s, p, end, b);
  }

  /** Where the checksum starts. */
  lemma InnerPad(s: seq<Byte>, b: nat, q: nat, c: seq<Byte>)
    requires b <= q && q + 7 <= |s| && s[q] == PAD && s[q + 1..q + 5] == c && s[q + 5] == NEWLINE && s[q + 6] == DASH
    requires forall i :: 0 <= i < 4 ==> c[i] != PAD
    ensures LastPad(s, b, q + 6) == At(q)
  {
    hide LastPad;
    assert s[q + 1] == c[0] && s[q + 2] == c[1] && s[q + 3] == c[2] && s[q + 4] == c[3];
    LastPadAt(s, b, q + 6, q);
  }

  /**
   The law of the decoder: armor stands for what its body decodes to if the checksum is
   that of the data, whatever comes before, between and after.
   */
  lemma ArmorLaw(pre: seq<Byte>, title: seq<Byte>, eol: seq<Byte>, ls: seq<seq<Byte>>, w: seq<Byte>, v: int,
                 post: seq<Byte>)
    requires Clean(pre) && (pre == [] || pre[|pre| - 1] == NEWLINE) && IsTitle(title) && IsEol(eol)
    requires (forall k :: 0 <= k < |ls| ==> IsComment(ls[k])) && IsBody(w) && 0 <= v < 0x100_0000
    ensures Dearmored(Wrapping(pre, title, eol, ls, w, v, post)) == Meaning(w, v)
  {
    hide HeaderLine, Decode, Checksum, Four, Lines, Dearmored, Clean, IsTitle, IsEol, IsBody, IsComment, FullLines;
    hide Meaning, START_SEP, TITLE, DASHES, FOOTER;
    var t, c := Lines(ls), Four(v);
    LinesHold(ls);
    FourClean(v);
    FrontClean(t, w, c);
    HeadersFound(pre, title, eol, t + w + [PAD] + c, post);
    InnerLaw(Wrapping(pre, title, eol, ls, w, v, post), |pre| + |START_SEP + title + DASHES + eol|, t, w, v, post);
  }

  /** The header and the footer of a text with nothing but data in between. */
  lemma HeadersFound(pre: seq<Byte>, title: seq<Byte>, eol: seq<Byte>, front: seq<Byte>, post: seq<Byte>)
    requires Clean(pre) && (pre == [] || pre[|pre| - 1] == NEWLINE) && IsTitle(title) && IsEol(eol) && Clean(front)
    ensures var head := START_SEP + title + DASHES + eol; var s := pre + head + (front + FOOTER + post);
      var p := |pre| + |head|;
      && p <= |s| && s[p..] == front + FOOTER + post
      && HeaderLine(s, START_SEP).Line? && HeaderLine(s, START_SEP).next == p
      && HeaderLine(s[p..], END_SEP).Line? && HeaderLine(s[p..], END_SEP).start == |front| + 1
  {
    hide HeaderLine, Clean, IsTitle, IsEol;
    var head := START_SEP + title + DASHES + eol;
    TitleHolds();
    HeaderFound(pre, START_SEP, title, eol, front + FOOTER + post);
    Rest(pre, head, front + FOOTER + post);
    FooterFound(front, post);
  }

  /** What is read between header and footer. */
  lemma InnerLaw(s: seq<Byte>, p: nat, t: seq<Byte>, w: seq<Byte>, v: int, post: seq<Byte>)
    requires 0 <= v < 0x100_0000 && IsBody(w) && FullLines(t)
    requires p <= |s| && s[p..] == t + w + [PAD] + Four(v) + FOOTER + post
    requires HeaderLine(s, START_SEP).Line? && HeaderLine(s, START_SEP).next == p
    requires HeaderLine(s[p..], END_SEP).Line? && HeaderLine(s[p..], END_SEP).start == |t| + |w| + 6
    ensures |w| >= 1 && Dearmored(s) == Meaning(w, v)
  {
    hide HeaderLine, Comments, LastPad, Decode, Checksum, Four, Dearmored, IsBody, FullLines;
    var c := Four(v);
    FourClean(v);
    BodyStarts(w);
    InnerBytes(s, p, t, w, c, post);
    var b, q := p + |t|, p + |t| + |w|;
    assert s[b] == s[b..q][0];
    InnerComments(s, p, b, q + 6);
    InnerPad(s, b, q, c);
    DearmoredAt(s, p, |t| + |w| + 6, b, q);
    ChecksumDecodes(v);
  }

  lemma BodyStarts(w: seq<Byte>)
    requires IsBody(w)
    ensures |w| >= 1 && (w[0] == NEWLINE || w[0] == RETURN)
  {}

  lemma FrontClean(t: seq<Byte>, w: seq<Byte>, c: seq<Byte>)
    requires Clean(t) && IsBody(w) && Clean(c)
    ensures Clean(t + w + [PAD] + c)
  {}

  /** So an armored byte string comes back with any comment lines put after its header line. */
  lemma CommentedRoundTrip(x: seq<Byte>, ls: seq<seq<Byte>>)
    requires forall k :: 0 <= k < |ls| ==> IsComment(ls[k])
    ensures |Armored(x)| >= 28 && Dearmored(Armored(x)[..28] + Lines(ls) + Armored(x)[28..]) == Ok(x)
  {
    hide Encode, Checksum, Four, Body, Decode, Armored, Dearmored, Lines, IsBody, IsTitle;
    var s, w, v := Armored(x), Body(x), Checksum(x);
    Layout(x);
    ArmoredParts(x);
    BodyDecodes(x);
    TitleHolds();
    BodyIsBody(w);
    ArmorLaw([], TITLE, [NEWLINE], ls, w, v, []);
    HeadLine();
    assert s[..28] == HEADER[..28] by { assert s[..28] == s[..29][..28]; }
    Flattened(HEADER[..28], Lines(ls), w, [PAD], Four(v), FOOTER);
  }

  lemma Flattened<T>(h: seq<T>, l: seq<T>, w: seq<T>, d: seq<T>, c: seq<T>, f: seq<T>)
    ensures [] + h + (l + w + d + c + f + []) == h + l + (w + d + c + f)
  {
    assert [] + h == h && l + w + d + c + f + [] == l + w + d + c + f;
    Regrouped(l, w, d);
    Regrouped(l, w + d, c);
    Regrouped(l, w + d + c, f);
    Regrouped(h, l, w + d + c + f);
  }

  lemma HeadLine()
    ensures HEADER[..28] == START_SEP + TITLE + DASHES + [NEWLINE]
  {}

  lemma BodyIsBody(w: seq<Byte>)
    requires Clean(w) && |w| >= 1 && w[0] == NEWLINE
    ensures IsBody(w)
  {}

  /** A checksum that is not the one of the data is refused. */
  lemma WrongChecksum(x: seq<Byte>, v: int)
    requires 0 <= v < 0x100_0000 && v != Checksum(x)
    ensures Dearmored(Wrapping([], TITLE, [NEWLINE], [], Body(x), v, [])) == Bad
  {
    hide Encode, Checksum, Four, Body, Decode, Dearmored, Lines, IsBody, IsTitle, Armored;
    ArmoredParts(x);
    BodyDecodes(x);
    TitleHolds();
    BodyIsBody(Body(x));
    ArmorLaw([], TITLE, [NEWLINE], [], Body(x), v, []);
  }
}
