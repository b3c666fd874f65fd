/** The plain-text message built by the send-email handler (index.js:117-121):
    three header lines, a blank line, then the body. */
module Mime {
  import opened Wrappers

  const Crlf: string := "\r\n"
  const BlankLine: string := "\r\n\r\n"
  const ContentTypeLine: string := "Content-Type: text/plain; charset=utf-8"

  /** The message text before it is turned into octets. */
  function Compose(to: string, subject: string, body: string): string {
    "To: " + to + Crlf + "Subject: " + subject + Crlf + ContentTypeLine + Crlf + Crlf + body
  }

  /** The header block of a composed message, without the blank line. */
  function HeaderBlock(to: string, subject: string): string {
    "To: " + to + Crlf + "Subject: " + subject + Crlf + ContentTypeLine
  }

  datatype Parts = Parts(header: string, body: string)

  /** A blank line (`CR LF CR LF`) starts at index `k` of `m`. */
  predicate BlankAt(m: string, k: nat) {
    k + 4 <= |m| && m[k] == '\r' && m[k + 1] == '\n' && m[k + 2] == '\r' && m[k + 3] == '\n'
  }

  /** Splits a message at its first blank line, the way a reader of the
      message separates the header from the body. */
  function SplitAtBlankLine(m: string): (r: Option<Parts>)
    ensures r.Some? ==> m == r.value.header + BlankLine + r.value.body
    decreases |m|
  {
    if |m| < 4 then None
    else if BlankAt(m, 0) then Some(Parts([], m[4..]))
    else
      match SplitAtBlankLine(m[1..])
      case None => None
      case Some(p) => Some(Parts([m[0]] + p.header, p.body))
  }

  /** The split happens at the first blank line, and fails only when there is none. */
  lemma {:induction false} SplitFindsFirstBlankLine(m: string)
    ensures SplitAtBlankLine(m).Some? ==> BlankAt(m, |SplitAtBlankLine(m).value.header|)
    ensures SplitAtBlankLine(m).Some? ==>
              forall k :: 0 <= k < |SplitAtBlankLine(m).value.header| ==> !BlankAt(m, k)
    ensures SplitAtBlankLine(m).None? ==> forall k :: 0 <= k < |m| ==> !BlankAt(m, k)
    decreases |m|
  {
    if |m| >= 4 && !BlankAt(m, 0) {
      SplitFindsFirstBlankLine(m[1..]);
      forall k | 0 <= k < |m| - 1
        ensures BlankAt(m, k + 1) == BlankAt(m[1..], k)
      {
      }
      forall k | 0 < k < |m|
        ensures BlankAt(m, k) == BlankAt(m[1..], k - 1)
      {
      }
    }
  }

  function Prepend(x: string, o: Option<Parts>): Option<Parts> {
    match o
    case None => None
    case Some(p) => Some(Parts(x + p.header, p.body))
  }

  /** Text without a carriage return cannot start a blank line. */
  lemma {:induction false} SplitSkipsText(x: string, rest: string)
    requires '\r' !in x
    ensures SplitAtBlankLine(x + rest) == Prepend(x, SplitAtBlankLine(rest))
    decreases |x|
  {
    if |x| > 0 {
      var m := x + rest;
      assert m[0] == x[0];
      assert m[1..] == x[1..] + rest;
      SplitSkipsText(x[1..], rest);
      if |m| >= 4 {
        assert !BlankAt(m, 0);
        match SplitAtBlankLine(rest)
        case None =>
        case Some(p) =>
          assert [x[0]] + (x[1..] + p.header) == x + p.header;
      }
    } else {
      assert x + rest == rest;
      match SplitAtBlankLine(rest)
      case None =>
      case Some(p) =>
        assert x + p.header == p.header;
    }
  }

  /** A line break followed by anything but another line break does not
      start a blank line. */
  lemma SplitSkipsLineBreak(rest: string)
    requires |rest| > 0 && rest[0] != '\r'
    ensures SplitAtBlankLine(Crlf + rest) == Prepend(Crlf, SplitAtBlankLine(rest))
  {
    var m := Crlf + rest;
    assert m == "\r" + ("\n" + rest);
    SplitSkipsText("\n", rest);
    if |m| >= 4 {
      assert !BlankAt(m, 0);
      assert m[1..] == "\n" + rest;
      match SplitAtBlankLine(rest)
      case None =>
      case Some(p) =>
        assert "\r" + ("\n" + p.header) == Crlf + p.header;
    }
  }

  /** When neither the recipient nor the subject holds a carriage return, the
      composed message's first blank line is the one after the three header
      lines: the header block and the body are recovered exactly. */
  lemma SplitCompose(to: string, subject: string, body: string)
    requires '\r' !in to && '\r' !in subject
    ensures SplitAtBlankLine(Compose(to, subject, body)) == Some(Parts(HeaderBlock(to, subject), body))
  {
    var toLine := "To: " + to;
    var r1 := "Subject: " + subject + (Crlf + (ContentTypeLine + (BlankLine + body)));
    var h1 := "Subject: " + subject + (Crlf + ContentTypeLine);
    var h0 := Crlf + h1;
    assert Compose(to, subject, body) == toLine + (Crlf + r1);
    assert HeaderBlock(to, subject) == toLine + h0;
    SplitFromSubject(subject, body);
    SplitSkipsLineBreak(r1);
    assert SplitAtBlankLine(Crlf + r1) == Some(Parts(h0, body));
    assert '\r' !in toLine;
    SplitSkipsText(toLine, Crlf + r1);
  }

  lemma SplitFromSubject(subject: string, body: string)
    requires '\r' !in subject
    ensures SplitAtBlankLine("Subject: " + subject + (Crlf + (ContentTypeLine + (BlankLine + body))))
         == Some(Parts("Subject: " + subject + (Crlf + ContentTypeLine), body))
  {
    var subjectLine := "Subject: " + subject;
    var r2 := ContentTypeLine + (BlankLine + body);
    NoCrInContentType();
    SplitAtLeadingBlankLine(ContentTypeLine, body);
    SplitSkipsLineBreak(r2);
    assert '\r' !in subjectLine;
    SplitSkipsText(subjectLine, Crlf + r2);
  }

  lemma NoCrInContentType()
    ensures '\r' !in ContentTypeLine
  {
  }

  /** Text without a carriage return followed by a blank line splits right
      after that text. */
  lemma SplitAtLeadingBlankLine(x: string, tail: string)
    requires '\r' !in x
    ensures SplitAtBlankLine(x + (BlankLine + tail)) == Some(Parts(x, tail))
  {
    assert BlankAt(BlankLine + tail, 0);
    assert (BlankLine + tail)[4..] == tail;
    assert SplitAtBlankLine(BlankLine + tail) == Some(Parts([], tail));
    SplitSkipsText(x, BlankLine + tail);
    assert x + [] == x;
  }

  /** The header fields are not escaped: when the subject holds a blank line,
      the header ends at that blank line and the rest of the subject, with the
      Content-Type line after it, becomes the start of the body. */
  lemma SubjectBlankLineEndsHeader(to: string, s1: string, s2: string, body: string)
    requires '\r' !in to && '\r' !in s1
    ensures SplitAtBlankLine(Compose(to, s1 + BlankLine + s2, body))
         == Some(Parts("To: " + to + Crlf + "Subject: " + s1,
                       s2 + Crlf + ContentTypeLine + Crlf + Crlf + body))
  {
    var toLine := "To: " + to;
    var tail := s2 + Crlf + ContentTypeLine + Crlf + Crlf + body;
    var r1 := "Subject: " + s1 + (BlankLine + tail);
    var h0 := Crlf + ("Subject: " + s1);
    assert Compose(to, s1 + BlankLine + s2, body) == toLine + (Crlf + r1);
    assert "To: " + to + Crlf + "Subject: " + s1 == toLine + h0;
    assert '\r' !in "Subject: " + s1;
    SplitAtLeadingBlankLine("Subject: " + s1, tail);
    SplitSkipsLineBreak(r1);
    assert SplitAtBlankLine(Crlf + r1) == Some(Parts(h0, tail));
    assert '\r' !in toLine;
    SplitSkipsText(toLine, Crlf + r1);
  }
}
