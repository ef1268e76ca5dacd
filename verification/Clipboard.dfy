/** The clipboard wire format: what getClipboard writes (kit/ChildSession.cpp) and ClipboardData reads (common/Clipboard.hpp). */
module Clipboard {
  import opened Numerals

  datatype Entry = Entry(mime: string, content: string)

  datatype Result<T> = Ok(value: T) | ParseError

  const LLONG_MAX := 0x7fff_ffff_ffff_ffff

  /** A length as it is written. */
  function Hex(n: nat): (s: string)
    ensures s != ""
  {
    Numeral(n, 16)
  }

  predicate IsSpace(c: char) {
    c == ' ' || 9 as char <= c <= 13 as char
  }

  function SkipSpace(s: string): string {
    if s != "" && IsSpace(s[0]) then SkipSpace(s[1..]) else s
  }

  function Saturate(n: nat): nat { if n > LLONG_MAX then LLONG_MAX else n }

  /** strtoll in base 16: white space, a sign, a 0x prefix, digits; saturating, and 0 without digits. */
  function Strtoll(text: string): int {
    var s := SkipSpace(text);
    var negative := s != "" && s[0] == '-';
    var t := if s != "" && (s[0] == '-' || s[0] == '+') then s[1..] else s;
    var u := if |t| > 2 && t[0] == '0' && (t[1] == 'x' || t[1] == 'X') && IsDigit(t[2], 16) then t[2..] else t;
    var n := Digits(u, 16, 0);
    if negative then -(if n > LLONG_MAX then LLONG_MAX + 1 else n) else Saturate(n)
  }

  /** An input stream: what is left of it, and its eof and fail bits. */
  datatype Stream = Stream(rest: string, eof: bool, fail: bool)

  function LineEnd(s: string): (n: nat)
    ensures n <= |s| && (n < |s| ==> s[n] == '\n') && forall i :: 0 <= i < n ==> s[i] != '\n'
  {
    if s == "" || s[0] == '\n' then 0 else 1 + LineEnd(s[1..])
  }

  /** std::getline: the text up to the newline, which is dropped; the end of the stream ends a line too. */
  function GetLine(st: Stream): (r: (string, Stream))
    ensures '\n' !in r.0
    ensures |r.1.rest| <= |st.rest| && (!st.eof && !st.fail ==> r.1.eof || |r.1.rest| < |st.rest|)
  {
    if st.eof || st.fail then ("", st.(fail := true))
    else
      var n := LineEnd(st.rest);
      if n < |st.rest| then (st.rest[..n], st.(rest := st.rest[n + 1..]))
      else (st.rest, Stream("", true, n == 0))
  }

  /** std::istream::read of n characters. */
  function ReadChars(st: Stream, n: nat): (r: (string, Stream))
    ensures |r.1.rest| <= |st.rest|
  {
    if st.eof || st.fail then ("", st.(fail := true))
    else if n <= |st.rest| then (st.rest[..n], st.(rest := st.rest[n..]))
    else (st.rest, Stream("", true, true))
  }

  /** One round of the reading loop: an entry, or nothing where there is no complete header. */
  function ReadEntry(st: Stream): (r: (Result<seq<Entry>>, Stream))
    requires !st.eof
    ensures !st.fail ==> r.0.Ok? ==> r.1.eof || |r.1.rest| < |st.rest|
    ensures r.0.Ok? ==> |r.0.value| <= 1
    ensures r.0.Ok? ==> forall i :: 0 <= i < |r.0.value| ==> r.0.value[i].mime != "" && '\n' !in r.0.value[i].mime
  {
    var (mime, s1) := GetLine(st);
    var (hexLen, s2) := GetLine(s1);
    if mime != "" && hexLen != "" && !s2.fail then
      var len := Strtoll(hexLen);
      // a negative length is a huge one once unsigned, and allocating it fails
      if len < 0 then (ParseError, s2)
      else
        var (content, s3) := ReadChars(s2, len);
        if s3.fail then (ParseError, s3)
        else
          var (newline, s4) := GetLine(s3);
          (Ok([Entry(mime, content)]), s4)
    else (Ok([]), s2)
  }

  /** Nothing is left to fail on but the end of the stream. */
  lemma FailsAtEnd(st: Stream)
    requires !st.eof && !st.fail
    ensures ReadEntry(st).0.Ok? ==> (ReadEntry(st).1.fail ==> ReadEntry(st).1.eof)
  {
  }

  function ReadAll(st: Stream): (r: Result<seq<Entry>>)
    requires st.fail ==> st.eof
    ensures r.Ok? ==> forall i :: 0 <= i < |r.value| ==> r.value[i].mime != "" && '\n' !in r.value[i].mime
    decreases !st.eof, |st.rest|
  {
    if st.eof then Ok([])
    else
      FailsAtEnd(st);
      match ReadEntry(st)
      case (ParseError, _) => ParseError
      case (Ok(entry), next) =>
        match ReadAll(next)
        case ParseError => ParseError
        case Ok(more) => Ok(entry + more)
  }

  ghost function Zip(mimes: seq<string>, contents: seq<string>): (r: seq<Entry>)
    requires |mimes| == |contents|
  {
    seq(|mimes|, i requires 0 <= i < |mimes| => Entry(mimes[i], contents[i]))
  }

  class ClipboardData {
    var mimeTypes: seq<string>
    var content: seq<string>

    ghost predicate Valid()
      reads this
    {
      |mimeTypes| == |content|
    }

    ghost function Entries(): seq<Entry>
      reads this
      requires Valid()
    {
      Zip(mimeTypes, content)
    }

    constructor ()
      ensures Valid() && Entries() == []
    {
      mimeTypes, content := [], [];
    }

    /** Reads entries until the stream ends and appends them; false stands for the exception. */
    method Read(inStream: Stream) returns (ok: bool)
      requires Valid() && (inStream.fail ==> inStream.eof)
      modifies this
      ensures Valid() && ok == ReadAll(inStream).Ok?
      ensures ok ==> Entries() == old(Entries()) + ReadAll(inStream).value
    {
      hide ReadEntry, ReadAll;
      var st := inStream;
      ghost var soFar: seq<Entry> := [];
      assert Prepend([], ReadAll(st)) == ReadAll(st) by { PrependNone(ReadAll(st)); }
      while !st.eof
        invariant Valid() && (st.fail ==> st.eof)
        invariant Entries() == old(Entries()) + soFar
        invariant ReadAll(inStream) == Prepend(soFar, ReadAll(st))
        decreases !st.eof, |st.rest|
      {
        FailsAtEnd(st);
        ReadStep(st);
        var (entry, next) := ReadEntry(st);
        if entry.ParseError? {
          return false;
        }
        if entry.value != [] {
          mimeTypes := mimeTypes + [entry.value[0].mime];
          content := content + [entry.value[0].content];
          assert Entries() == old(Entries()) + soFar + [entry.value[0]];
          assert entry.value == [entry.value[0]];
        }
        PrependTwice(soFar, entry.value, ReadAll(next));
        soFar := soFar + entry.value;
        st := next;
      }
      ReadEnd(st);
      ok := true;
    }
  }

  function Prepend(front: seq<Entry>, r: Result<seq<Entry>>): Result<seq<Entry>> {
    if r.Ok? then Ok(front + r.value) else ParseError
  }

  lemma PrependNone(r: Result<seq<Entry>>)
    ensures Prepend([], r) == r
  {
    if r.Ok? {
      assert [] + r.value == r.value;
    }
  }

  lemma PrependTwice(a: seq<Entry>, b: seq<Entry>, r: Result<seq<Entry>>)
    ensures Prepend(a, Prepend(b, r)) == Prepend(a + b, r)
  {
    if r.Ok? {
      assert a + (b + r.value) == a + b + r.value;
    }
  }

  lemma ReadStep(st: Stream)
    requires !st.eof && !st.fail
    ensures ReadEntry(st).0.ParseError? ==> ReadAll(st).ParseError?
    ensures ReadEntry(st).0.Ok? ==>
      (ReadEntry(st).1.fail ==> ReadEntry(st).1.eof) && ReadAll(st) == Prepend(ReadEntry(st).0.value, ReadAll(ReadEntry(st).1))
  {
    FailsAtEnd(st);
  }

  lemma ReadEnd(st: Stream)
    requires st.eof
    ensures ReadAll(st) == Ok([])
  {
  }

  function WriteEntry(e: Entry): string {
    e.mime + "\n" + Hex(|e.content|) + "\n" + e.content + "\n"
  }

  function WriteAll(entries: seq<Entry>): string {
    if entries == [] then "" else WriteEntry(entries[0]) + WriteAll(entries[1..])
  }

  /** The serialising loop behind the header line. */
  method Write(entries: seq<Entry>) returns (output: string)
    ensures output == WriteAll(entries)
  {
    hide WriteAll, WriteEntry, Hex;
    output := "";
    WriteNone();
    for i := 0 to |entries|
      invariant output + WriteAll(entries[i..]) == WriteAll(entries)
    {
      WriteOne(output, entries, i);
      output := output + entries[i].mime;
      output := output + "\n";
      output := output + Hex(|entries[i].content|);
      output := output + "\n";
      output := output + entries[i].content;
      output := output + "\n";
    }
    assert entries[|entries|..] == [];
  }

  lemma WriteNone()
    ensures forall none: seq<Entry> :: none == [] ==> WriteAll(none) == ""
  {
  }

  lemma WriteOne(output: string, entries: seq<Entry>, i: nat)
    requires i < |entries|
    ensures var e := entries[i];
      output + WriteAll(entries[i..])
      == output + e.mime + "\n" + Hex(|e.content|) + "\n" + e.content + "\n" + WriteAll(entries[i + 1..])
  {
    hide Hex;
    var e, rest := entries[i], WriteAll(entries[i + 1..]);
    assert entries[i..][1..] == entries[i + 1..];
    Regroup(output, e.mime + "\n" + Hex(|e.content|), "\n" + e.content + "\n", rest);
    assert WriteEntry(e) == e.mime + "\n" + Hex(|e.content|) + ("\n" + e.content + "\n");
    assert output + (e.mime + "\n" + Hex(|e.content|)) + ("\n" + e.content + "\n") == output + e.mime + "\n" + Hex(|e.content|) + "\n" + e.content + "\n";
  }

  lemma Regroup(a: string, b: string, c: string, d: string)
    ensures a + ((b + c) + d) == a + b + c + d
  {
  }

  /** The length comes back as it was written. */
  lemma StrtollOfHex(n: nat)
    ensures Strtoll(Hex(n)) == Saturate(n)
  {
    var h := Hex(n);
    DigitsOfNumeral(n, 16);
    assert IsDigit(h[0], 16) && (|h| > 1 ==> IsDigit(h[1], 16));
    assert SkipSpace(h) == h;
  }

  lemma GetLineOf(line: string, tail: string)
    requires '\n' !in line
    ensures GetLine(Stream(line + "\n" + tail, false, false)) == (line, Stream(tail, false, false))
  {
    var s := line + "\n" + tail;
    var n := LineEnd(s);
    assert s[|line|] == '\n';
    assert forall i :: 0 <= i < |line| ==> s[i] == line[i] && line[i] in line;
    assert s[..n] == line && s[n + 1..] == tail;
  }

  lemma HexLine(n: nat)
    ensures '\n' !in Hex(n)
  {
  }

  lemma ReadWritten(e: Entry, rest: string)
    requires e.mime != "" && '\n' !in e.mime && |e.content| <= LLONG_MAX
    ensures ReadEntry(Stream(WriteEntry(e) + rest, false, false)) == (Ok([e]), Stream(rest, false, false))
  {
    hide Strtoll, Hex, GetLine;
    var hex := Hex(|e.content|);
    var s3 := "\n" + rest;
    var s2 := e.content + s3;
    var s1 := hex + "\n" + s2;
    assert WriteEntry(e) + rest == e.mime + "\n" + s1;
    GetLineOf(e.mime, s1);
    HexLine(|e.content|);
    GetLineOf(hex, s2);
    StrtollOfHex(|e.content|);
    assert s2[..|e.content|] == e.content && s2[|e.content|..] == s3;
    assert s3 == "" + "\n" + rest;
    GetLineOf("", rest);
  }

  lemma {:induction false} ReadBack(entries: seq<Entry>)
    requires forall i :: 0 <= i < |entries| ==> entries[i].mime != "" && '\n' !in entries[i].mime && |entries[i].content| <= LLONG_MAX
    ensures ReadAll(Stream(WriteAll(entries), false, false)) == Ok(entries)
  {
    if entries == [] {
      var end := Stream("", true, true);
      assert ReadEntry(Stream("", false, false)) == (Ok([]), end);
      ReadEnd(end);
      ReadStep(Stream("", false, false));
      PrependNone(Ok([]));
    } else {
      hide ReadEntry, ReadAll;
      var rest := WriteAll(entries[1..]);
      ReadWritten(entries[0], rest);
      ReadBack(entries[1..]);
      ReadStep(Stream(WriteEntry(entries[0]) + rest, false, false));
      assert [entries[0]] + entries[1..] == entries;
    }
  }

  /** Reading gives back what was written exactly when every mime type is non-empty and free of newlines. */
  lemma RoundTripExactlyWhen(entries: seq<Entry>)
    requires forall i :: 0 <= i < |entries| ==> |entries[i].content| <= LLONG_MAX
    ensures ReadAll(Stream(WriteAll(entries), false, false)) == Ok(entries)
            <==> forall i :: 0 <= i < |entries| ==> entries[i].mime != "" && '\n' !in entries[i].mime
  {
    if forall i :: 0 <= i < |entries| ==> entries[i].mime != "" && '\n' !in entries[i].mime {
      ReadBack(entries);
    }
  }

  /** An entry without a mime type, or with a newline in it, does not come back. */
  lemma BadMimeBreaks(content: string)
    requires |content| <= LLONG_MAX
    ensures ReadAll(Stream(WriteAll([Entry("", content)]), false, false)) != Ok([Entry("", content)])
    ensures ReadAll(Stream(WriteAll([Entry("a\nb", content)]), false, false)) != Ok([Entry("a\nb", content)])
  {
    var a, b := [Entry("", content)], [Entry("a\nb", content)];
    hide ReadAll, WriteAll;
    RoundTripExactlyWhen(a);
    RoundTripExactlyWhen(b);
    assert a[0].mime == "" && b[0].mime[1] == '\n';
  }

  /**
   * What is read of two lines and a rest: nothing if one of the lines is empty; else the second is
   * the length, and that many characters follow, up to the end of their line; or it fails.
   */
  lemma ReadsEntry(mime: string, length: string, rest: string)
    requires '\n' !in mime && '\n' !in length
    ensures var (r, next) := ReadEntry(Stream(mime + "\n" + length + "\n" + rest, false, false)); var n := Strtoll(length);
      if mime == "" || length == "" then r == Ok([]) && next == Stream(rest, false, false)
      else if n < 0 || |rest| < n then r == ParseError
      else r == Ok([Entry(mime, rest[..n])]) && next == GetLine(Stream(rest[n..], false, false)).1
  {
    hide Strtoll, GetLine;
    var s := length + "\n" + rest;
    assert mime + "\n" + length + "\n" + rest == mime + "\n" + s;
    GetLineOf(mime, s);
    GetLineOf(length, rest);
  }
}
