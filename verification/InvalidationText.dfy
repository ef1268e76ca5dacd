/** The text of an invalidation callback: rewriting it to a merged rectangle, and reading that back (common/MessageQueue.cpp). */
module InvalidationText {
  import opened Numerals
  import opened Wrappers
  import opened Messages
  import opened QueuePut
  import opened Tokens

  // ---- numbers ----------------------------------------------------------

  /** std::to_string. */
  function ToString(n: int): string { if n < 0 then "-" + Numeral(-n, 10) else Numeral(n, 10) }

  /** std::atoi on a token, which has no white space. */
  function Atoi(s: string): int {
    if s != "" && s[0] == '-' then 0 - Digits(s[1..], 10, 0)
    else if s != "" && s[0] == '+' then Digits(s[1..], 10, 0)
    else Digits(s, 10, 0)
  }

  /** A number reads as the number, with a comma behind it or without. */
  lemma AtoiOfNumber(n: int, behind: string)
    requires behind == "" || behind == ","
    ensures Atoi(ToString(n) + behind) == n
  {
    var k: nat := if n < 0 then -n else n;
    var d := Numeral(k, 10);
    DigitsOfNumeral(k, 10);
    DigitsAppend(d, behind, 10, 0);
    assert IsDigit(d[0], 10);
    hide Numeral, Digits;
    var s := ToString(n) + behind;
    if n < 0 {
      assert s[1..] == d + behind;
    } else {
      assert s == d + behind && s[0] == d[0];
    }
  }

  lemma NumberToken(n: int)
    ensures IsToken(ToString(n) + ",") && ToString(n) + "," != "EMPTY," && IsToken(ToString(n))
  {
    var k: nat := if n < 0 then -n else n;
    forall i | 0 <= i < |Numeral(k, 10)| ensures Numeral(k, 10)[i] != ' ' && Numeral(k, 10)[i] != '\n' {
      assert IsDigit(Numeral(k, 10)[i], 10);
    }
    var s := ToString(n) + ",";
    assert if n < 0 then s[0] == '-' else s[0] == Numeral(k, 10)[0] && IsDigit(s[0], 10);
  }

  // ---- reading ----------------------------------------------------------

  /** Reads the rectangle, part and mode from the tokens of a callback. */
  function ExtractRectangle(ts: seq<string>): Option<Area> {
    if |ts| < 5 then None
    else if ts[3] == "EMPTY," then Some(Rect(0, 0, INT_MAX, INT_MAX, Atoi(ts[4]), 0))
    else if |ts| < 8 then None
    else Some(Rect(Atoi(ts[3]), Atoi(ts[4]), Atoi(ts[5]), Atoi(ts[6]), Atoi(ts[7]), if |ts| == 9 then Atoi(ts[8]) else 0))
  }

  ghost function Numbers(r: Area): seq<string>
    requires r.Rect?
  {
    [ToString(r.x) + ",", ToString(r.y) + ",", ToString(r.w) + ",", ToString(r.h) + ","]
  }

  /** The payload of an invalidation as it is sent, token by token; a mode of 0 may be left out. */
  ghost function AreaTokens(a: Area, withMode: bool): seq<string>
    requires !a.NoArea?
  {
    (if a.Rect? then Numbers(a) else ["EMPTY,"])
    + if withMode then [ToString(a.part) + ",", ToString(a.mode)] else [ToString(a.part)]
  }

  lemma AreaTokensAre(a: Area, withMode: bool)
    requires !a.NoArea?
    ensures AllTokens(AreaTokens(a, withMode))
  {
    hide IsToken, ToString;
    NumberToken(a.part);
    NumberToken(a.mode);
    if a.Rect? {
      NumberToken(a.x);
      NumberToken(a.y);
      NumberToken(a.w);
      NumberToken(a.h);
    } else {
      EmptyToken();
    }
  }

  lemma EmptyToken()
    ensures IsToken("EMPTY,")
  {
  }

  /** What is read from the text of an invalidation is its rectangle, part and mode; "EMPTY" is read as mode 0 whatever it says. */
  lemma ExtractText(head: seq<string>, a: Area, withMode: bool)
    requires |head| == 3 && AllTokens(head) && !a.NoArea? && (!withMode ==> a.mode == 0)
    ensures ExtractRectangle(Tokenize(Join(head + AreaTokens(a, withMode)))) == Extract(a)
  {
    hide IsToken, ToString, Tokenize, Join, Atoi;
    var ts := head + AreaTokens(a, withMode);
    AreaTokensAre(a, withMode);
    assert AllTokens(ts) by { BothTokens(head, AreaTokens(a, withMode)); }
    TokenizeJoin(ts);
    var behind := if withMode then "," else "";
    AtoiOfNumber(a.part, behind);
    AtoiOfNumber(a.mode, "");
    assert ToString(a.part) + "" == ToString(a.part) && ToString(a.mode) + "" == ToString(a.mode);
    if a.Rect? {
      NumberToken(a.x);
      AtoiOfNumber(a.x, ",");
      AtoiOfNumber(a.y, ",");
      AtoiOfNumber(a.w, ",");
      AtoiOfNumber(a.h, ",");
    }
  }

  lemma BothTokens(a: seq<string>, b: seq<string>)
    requires AllTokens(a) && AllTokens(b)
    ensures AllTokens(a + b)
  {
  }

  // ---- rewriting --------------------------------------------------------

  /** Where the text is cut: in front of the rectangle, and behind it. */
  function Pre(ts: seq<string>): nat
    requires |ts| >= 8
  {
    |ts[0]| + |ts[1]| + |ts[2]| + 3
  }

  function Post(ts: seq<string>): nat
    requires |ts| >= 8
  {
    Pre(ts) + |ts[3]| + |ts[4]| + |ts[5]| + |ts[6]| + 4
  }

  function NumberText(r: Area): string
    requires r.Rect?
  {
    ToString(r.x) + ", " + (ToString(r.y) + ", " + (ToString(r.w) + ", " + (ToString(r.h) + ", ")))
  }

  /** The message with its rectangle replaced, at positions computed as if single spaces were between the tokens. */
  function Rewrite(message: string, r: Area): string
    requires r.Rect? && |Tokenize(message)| >= 8
  {
    var ts := Tokenize(message);
    CutsInside(message);
    message[..Pre(ts)] + (NumberText(r) + message[Post(ts)..])
  }

  lemma CutSizes(ts: seq<string>)
    requires |ts| >= 8
    ensures Pre(ts) == Sizes(ts, 3) + 3 && Post(ts) == Sizes(ts, 7) + 7
    ensures Sizes(ts, 4) == Sizes(ts, 3) + |ts[3]| && Sizes(ts, 8) == Sizes(ts, 7) + |ts[7]|
  {
    assert Sizes(ts, 0) == 0;
    assert Sizes(ts, 1) == |ts[0]|;
    assert Sizes(ts, 2) == |ts[0]| + |ts[1]|;
    assert Sizes(ts, 3) == |ts[0]| + |ts[1]| + |ts[2]|;
    assert Sizes(ts, 4) == Sizes(ts, 3) + |ts[3]|;
    assert Sizes(ts, 5) == Sizes(ts, 4) + |ts[4]|;
    assert Sizes(ts, 6) == Sizes(ts, 5) + |ts[5]|;
  }

  /** However many spaces there are, the cuts are not behind the starts of the fourth and the eighth token. */
  lemma CutsInside(message: string)
    requires |Tokenize(message)| >= 8
    ensures var ts := Tokenize(message);
      && Pre(ts) <= Behind(message, 3) - |ts[3]| && Pre(ts) <= Post(ts) <= Behind(message, 7) - |ts[7]|
      && Behind(message, 3) <= |message| && Behind(message, 7) <= |message|
  {
    hide Tokenize, Behind, Sizes;
    CutBehind(message, 3);
    CutBehind(message, 7);
    CutSizes(Tokenize(message));
  }

  /** The cuts fall into the spaces behind the third and behind the seventh token. */
  predicate CutsInGaps(message: string)
    requires |Tokenize(message)| >= 8
  {
    Behind(message, 2) < Pre(Tokenize(message)) && Behind(message, 6) <= Post(Tokenize(message))
  }

  /** The tokens with those of the rectangle replaced. */
  ghost function Replaced(ts: seq<string>, r: Area): seq<string>
    requires r.Rect? && |ts| >= 8
  {
    ts[..3] + (Numbers(r) + ts[7..])
  }

  lemma NumberThen(n: int, rest: string)
    ensures Tokenize(ToString(n) + ", " + rest) == [ToString(n) + ","] + Tokenize(rest)
    ensures StartsWord(ToString(n) + ", " + rest)
  {
    hide ToString, Tokenize, IsToken;
    var t, gap := ToString(n) + ",", " " + rest;
    NumberToken(n);
    WordThen(t, gap);
    TokenizeSpace(gap);
    assert gap[1..] == rest;
    assert ToString(n) + ", " + rest == t + gap;
  }

  lemma NumbersThen(r: Area, rest: string)
    requires r.Rect?
    ensures Tokenize(NumberText(r) + rest) == Numbers(r) + Tokenize(rest) && StartsWord(NumberText(r) + rest)
  {
    hide ToString, Tokenize, StartsWord;
    var h := ToString(r.h) + ", " + rest;
    var w := ToString(r.w) + ", " + h;
    var y := ToString(r.y) + ", " + w;
    NumberThen(r.h, rest);
    NumberThen(r.w, h);
    NumberThen(r.y, w);
    NumberThen(r.x, y);
    assert NumberText(r) + rest == ToString(r.x) + ", " + y by {
      Nested(ToString(r.x), ToString(r.y), ToString(r.w), ToString(r.h), rest);
    }
  }

  lemma Nested(x: string, y: string, w: string, h: string, rest: string)
    ensures (x + ", " + (y + ", " + (w + ", " + (h + ", ")))) + rest == x + ", " + (y + ", " + (w + ", " + (h + ", " + rest)))
  {
    assert (w + ", " + (h + ", ")) + rest == w + ", " + (h + ", " + rest);
    assert (y + ", " + (w + ", " + (h + ", "))) + rest == y + ", " + (w + ", " + (h + ", " + rest));
  }

  /** In front of a cut in the gap behind token k there are the tokens up to it. */
  lemma FrontOfGap(s: string, k: nat, cut: nat)
    requires k + 1 < |Tokenize(s)| && Behind(s, k) < cut <= Behind(s, k + 1) - |Tokenize(s)[k + 1]|
    ensures cut <= |s| && '\n' !in s[..cut] && s[cut - 1] == ' ' && Tokenize(s[..cut]) == Tokenize(s)[..k + 1]
  {
    hide Tokenize, Behind, Sizes;
    var e := Behind(s, k);
    Gap(s, k);
    CutBehind(s, k);
    SplitTokens(s, k);
    var start := Behind(s, k + 1) - |Tokenize(s)[k + 1]|;
    var gap := s[e..cut];
    PartOfGap(s, e, cut, start);
    NoTokens(gap);
    assert '\n' !in gap;
    TokenizeConcat(s[..e], gap);
  }

  /** And behind such a cut there are the others. */
  lemma BackOfGap(s: string, k: nat, cut: nat)
    requires k + 1 < |Tokenize(s)| && Behind(s, k) <= cut <= Behind(s, k + 1) - |Tokenize(s)[k + 1]|
    ensures cut <= |s| && Tokenize(s[cut..]) == Tokenize(s)[k + 1..]
  {
    hide Tokenize, Behind;
    var e := Behind(s, k);
    Gap(s, k);
    SplitTokens(s, k);
    var start := Behind(s, k + 1) - |Tokenize(s)[k + 1]|;
    var gap := s[e..cut];
    PartOfGap(s, e, cut, start);
    NoTokens(gap);
    TokenizeConcat(gap, s[cut..]);
  }

  lemma GoodCuts(message: string, r: Area)
    requires |Tokenize(message)| >= 8 && r.Rect? && CutsInGaps(message)
    ensures Tokenize(Rewrite(message, r)) == Replaced(Tokenize(message), r)
  {
    hide Tokenize, Behind, NumberText, Pre, Post, Numbers;
    var ts := Tokenize(message);
    CutsInside(message);
    FrontOfGap(message, 2, Pre(ts));
    BackOfGap(message, 6, Post(ts));
    NumbersThen(r, message[Post(ts)..]);
    TokenizeConcat(message[..Pre(ts)], NumberText(r) + message[Post(ts)..]);
  }

  /** A text cut not behind the end of token k: its tokens, and whether there is one more to come before that end. */
  lemma ShortFront(s: string, k: nat, cut: nat)
    requires k < |Tokenize(s)| && 0 < cut <= Behind(s, k)
    ensures cut <= |s| && '\n' !in s[..cut]
    ensures |Tokenize(s[..cut])| + (if s[cut - 1] == ' ' then 1 else 0) <= k + 1
  {
    hide Tokenize, Behind, Sizes;
    var e := Behind(s, k);
    CutBehind(s, k);
    SplitTokens(s, k);
    var a, c := s[..cut], s[cut..e];
    assert s[..e] == a + c;
    assert forall x :: x in a ==> x in s[..e];
    if c != "" {
      assert c[|c| - 1] == s[e - 1];
      assert forall x :: x in c ==> x in s[..e];
      SomeToken(c);
      if s[cut - 1] == ' ' || StartsGap(c) {
        TokenizeConcat(a, c);
      } else {
        TokenizeGlue(a, c);
      }
    } else {
      assert a == s[..e];
    }
  }

  /** Where a number goes that is put in too soon: behind some tokens, or onto the last of them. */
  ghost function Landing(message: string): (at: (int, string))
    requires |Tokenize(message)| >= 8
  {
    CutsInside(message);
    var a := message[..Pre(Tokenize(message))];
    var front := Tokenize(a);
    if a[|a| - 1] == ' ' || front == [] then (|front|, "") else (|front| - 1, front[|front| - 1])
  }

  /** A number put in too soon ends one of the first three tokens. */
  lemma LandsThere(message: string, r: Area)
    requires |Tokenize(message)| >= 8 && r.Rect? && Pre(Tokenize(message)) <= Behind(message, 2)
    ensures var (at, front) := Landing(message); var us := Tokenize(Rewrite(message, r));
      0 <= at < 3 && at < |us| && us[at] == front + (ToString(r.x) + ",")
  {
    hide Tokenize, Behind, NumberText, Post, Numbers, ToString;
    var ts := Tokenize(message);
    CutsInside(message);
    var a, b := message[..Pre(ts)], NumberText(r) + message[Post(ts)..];
    ShortFront(message, 2, Pre(ts));
    NumbersThen(r, message[Post(ts)..]);
    FirstNumber(r, Tokenize(message[Post(ts)..]));
    if a[|a| - 1] == ' ' {
      TokenizeConcat(a, b);
    } else {
      TokenizeGlue(a, b);
    }
  }

  /** A rectangle that the queue can have merged: of reasonable size, in 32 bit numbers. */
  predicate Mergeable(r: Area) {
    r.Rect? && Reasonable(r) && IsInt(r.x) && IsInt(r.y) && IsInt(r.w) && IsInt(r.h)
  }

  predicate IsInt(n: int) { -INT_MAX - 1 <= n <= INT_MAX }

  /** Where the number goes, 0 and 1 cannot both give the token that was there. */
  lemma CutTooSoon(message: string)
    requires |Tokenize(message)| >= 8 && Pre(Tokenize(message)) <= Behind(message, 2)
    ensures exists r: Area :: Mergeable(r) && Tokenize(Rewrite(message, r)) != Replaced(Tokenize(message), r)
  {
    hide Tokenize, Behind, Rewrite, Landing, Pre;
    var zero, one := Rect(0, 0, 0, 0, 0, 0), Rect(1, 0, 0, 0, 0, 0);
    var ts := Tokenize(message);
    var (at, front) := Landing(message);
    LandsThere(message, zero);
    LandsThere(message, one);
    assert Replaced(ts, zero)[at] == ts[at] && Replaced(ts, one)[at] == ts[at];
    ZeroOrOne(front);
    assert Mergeable(zero) && Mergeable(one);
  }

  lemma ZeroOrOne(front: string)
    ensures front + (ToString(0) + ",") != front + (ToString(1) + ",")
  {
    assert (front + (ToString(0) + ","))[|front|] == '0';
    assert (front + (ToString(1) + ","))[|front|] == '1';
  }

  lemma FirstNumber(r: Area, rest: seq<string>)
    requires r.Rect?
    ensures |Numbers(r)| == 4 && (Numbers(r) + rest)[0] == ToString(r.x) + ","
  {
    hide ToString;
  }

  /** A text taken up again too soon brings a token too many. */
  lemma ResumedTooSoon(message: string, r: Area)
    requires |Tokenize(message)| >= 8 && r.Rect?
    requires Behind(message, 2) < Pre(Tokenize(message)) && Post(Tokenize(message)) < Behind(message, 6)
    ensures Tokenize(Rewrite(message, r)) != Replaced(Tokenize(message), r)
  {
    hide Tokenize, Behind, NumberText, Pre, Post, Sizes;
    var ts := Tokenize(message);
    CutsInside(message);
    FrontOfGap(message, 2, Pre(ts));
    var e, post := Behind(message, 6), Post(ts);
    CutBehind(message, 6);
    SplitTokens(message, 6);
    var c := message[post..e];
    assert message[post..] == c + message[e..] && c[|c| - 1] == message[e - 1];
    assert forall x :: x in c ==> x in message[..e];
    SomeToken(c);
    TokenizeConcat(c, message[e..]);
    NumbersThen(r, message[post..]);
    TokenizeConcat(message[..Pre(ts)], NumberText(r) + message[post..]);
    FirstNumber(r, []);
  }

  /**
   * For every text of a callback, however it is spaced: rewriting replaces the tokens of the
   * rectangle and no others, whatever rectangle was merged, if and only if the cuts fall into the gaps.
   */
  lemma RewriteExactlyWhen(message: string)
    requires |Tokenize(message)| >= 8
    ensures (forall r: Area :: Mergeable(r) ==> Tokenize(Rewrite(message, r)) == Replaced(Tokenize(message), r)) <==> CutsInGaps(message)
  {
    hide Tokenize, Rewrite, Replaced, Behind, Pre, Post, ToString;
    if CutsInGaps(message) {
      forall r: Area | Mergeable(r) ensures Tokenize(Rewrite(message, r)) == Replaced(Tokenize(message), r) {
        GoodCuts(message, r);
      }
    } else if Pre(Tokenize(message)) <= Behind(message, 2) {
      CutTooSoon(message);
    } else {
      var r := Rect(0, 0, 0, 0, 0, 0);
      ResumedTooSoon(message, r);
      assert Mergeable(r);
    }
  }

  /** With single spaces between the first seven tokens, as callbacks are sent, they do. */
  lemma SingleSpaces(ts: seq<string>)
    requires AllTokens(ts) && |ts| >= 8
    ensures Tokenize(Join(ts)) == ts && CutsInGaps(Join(ts))
  {
    hide Tokenize, Join, Behind, Sizes, AllTokens;
    JoinBehind(ts, 2);
    JoinBehind(ts, 6);
    CutSizes(ts);
  }

  /** One space too many behind the first token, and they do not: the type of the callback and the number grow together. */
  lemma OneSpaceBreaks(ts: seq<string>, r: Area)
    requires AllTokens(ts) && |ts| >= 8 && r.Rect?
    ensures var message := ts[0] + "  " + Join(ts[1..]);
      && Tokenize(message) == ts && !CutsInGaps(message)
      && var us := Tokenize(Rewrite(message, r)); |us| > 2 && us[2] == ts[2] + (ToString(r.x) + ",") && us != Replaced(ts, r)
  {
    hide Tokenize, Join, Behind, Sizes, IsToken, TokenEnd, Rewrite, ToString, Landing;
    var message := ts[0] + "  " + Join(ts[1..]);
    OneSpaceMore(ts);
    LandsThere(message, r);
    LandsOnType(message);
    assert Replaced(ts, r)[2] == ts[2];
  }

  /** If the cut is just behind the third token the number goes onto it. */
  lemma LandsOnType(message: string)
    requires |Tokenize(message)| >= 8 && Pre(Tokenize(message)) == Behind(message, 2)
    ensures Landing(message) == (2, Tokenize(message)[2])
  {
    hide Tokenize, Behind, Pre, Sizes;
    CutsInside(message);
    CutBehind(message, 2);
    SplitTokens(message, 2);
  }

  lemma OneSpaceMore(ts: seq<string>)
    requires AllTokens(ts) && |ts| >= 8
    ensures var message := ts[0] + "  " + Join(ts[1..]); Tokenize(message) == ts && Behind(message, 2) == Pre(ts)
  {
    hide Tokenize, Join, Behind, Sizes, IsToken, TokenEnd;
    var rest, gap := Join(ts[1..]), "  " + Join(ts[1..]);
    var message := ts[0] + gap;
    assert ts[0] + "  " + rest == message;
    JoinBehind(ts[1..], 1);
    WordThen(ts[0], gap);
    TokenEndOf(ts[0], gap);
    TokenizeSpace(gap);
    TokenizeSpace(gap[1..]);
    assert gap[1..][1..] == rest && [ts[0]] + ts[1..] == ts && message[|ts[0]|..] == gap;
    BehindWord(message, 2);
    BehindSpace(gap, 1);
    BehindSpace(gap[1..], 1);
    SizesFront(ts, 3);
    CutSizes(ts);
  }

  /** The rewritten message parses back to the merged rectangle, for the same view, type, part and mode. */
  lemma RewriteParsesBack(message: string, r: Area)
    requires |Tokenize(message)| >= 8 && CutsInGaps(message) && r.Rect? && Tokenize(message)[3] != "EMPTY,"
    requires var was := ExtractRectangle(Tokenize(message)).value; r.part == was.part && r.mode == was.mode
    ensures var ts, us := Tokenize(message), Tokenize(Rewrite(message, r));
      |us| == |ts| && us[..3] == ts[..3] && us[7..] == ts[7..] && ExtractRectangle(us) == Some(r)
  {
    hide Tokenize, ToString, Atoi, Rewrite, Behind, Pre, Post;
    GoodCuts(message, r);
    NumberToken(r.x);
    AtoiOfNumber(r.x, ",");
    AtoiOfNumber(r.y, ",");
    AtoiOfNumber(r.w, ",");
    AtoiOfNumber(r.h, ",");
  }
}
