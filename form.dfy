/** The upload path of the request handler: `parse_post_form` scans the
    request body one byte at a time into a 512-byte buffer until the blank
    line that ends the multipart part header, and `get_filename_from_form`
    pulls the `filename="..."` value out of that header. */
module Form {
  import opened Seqs
  import opened Bytes

  /** The errors the two functions return as `Err(String)` in Rust:
      "Error: Post form is too long > 512", "Error: Malformed form",
      "Error: File name not found", and the `Utf8Error` text. */
  datatype FormError = FormTooLong | MalformedForm | FileNameNotFound | InvalidUtf8

  datatype FormResult = Ok(name: seq<byte>) | Err(error: FormError)

  // ---------------------------------------------------------------------
  // get_filename_from_form

  const FileNameKey: seq<byte> := AsciiBytes("filename=")

  /** The token mentions `filename=` somewhere (`s.contains(file_name)`). */
  predicate Names(t: seq<byte>)
  {
    Contains(t, FileNameKey)
  }

  /** The guard that returns "Malformed form": the token does not split into
      exactly two pieces at `"` and its first piece is not `filename=`. */
  predicate MalformedToken(t: seq<byte>)
  {
    var pieces := Split(t, QUOTE);
    |pieces| != 2 && pieces[0] != FileNameKey
  }

  /** A token that passes the guard but has no second piece: `tmp[1]` is
      then out of bounds and the handler thread panics. */
  predicate BareToken(t: seq<byte>)
  {
    !MalformedToken(t) && |Split(t, QUOTE)| < 2
  }

  /** The value the loop stores in `name` for an accepted token. */
  function PieceAfterQuote(t: seq<byte>): seq<byte>
    requires |Split(t, QUOTE)| >= 2
  {
    Split(t, QUOTE)[1]
  }

  /** The loop over the space-separated tokens reaches a bare token before
      any malformed one, i.e. the source would panic. */
  predicate ReachesBare(tokens: seq<seq<byte>>)
  {
    if tokens == [] then false
    else if Names(tokens[0]) && MalformedToken(tokens[0]) then false
    else if Names(tokens[0]) && BareToken(tokens[0]) then true
    else ReachesBare(tokens[1..])
  }

  /** What is left of the loop over `tokens` when `name` holds the value
      stored so far: the first malformed token ends it with an error,
      otherwise every token naming a file overwrites `name`. */
  function ScanTokens(tokens: seq<seq<byte>>, name: seq<byte>): FormResult
    requires !ReachesBare(tokens)
  {
    if tokens == [] then Ok(name)
    else if Names(tokens[0]) then
      if MalformedToken(tokens[0]) then Err(MalformedForm)
      else ScanTokens(tokens[1..], PieceAfterQuote(tokens[0]))
    else ScanTokens(tokens[1..], name)
  }

  /** The header cannot make `get_filename_from_form` panic. */
  predicate FilenameCannotPanic(form: seq<byte>)
  {
    !ReachesBare(Split(form, SP))
  }

  /** Specification of `get_filename_from_form`. */
  function FileNameFromForm(form: seq<byte>): FormResult
    requires FilenameCannotPanic(form)
  {
    match ScanTokens(Split(form, SP), [])
    case Err(e) => Err(e)
    case Ok(name) => if name == [] then Err(FileNameNotFound) else Ok(name)
  }

  /** `filename=` names a file and holds no `"`. */
  lemma KeyIsBare()
    ensures Names(FileNameKey) && Split(FileNameKey, QUOTE) == [FileNameKey]
  {
    assert OccursAt(FileNameKey, FileNameKey, 0);
    assert QUOTE !in FileNameKey by {
      forall i | 0 <= i < |FileNameKey| ensures FileNameKey[i] != QUOTE {
        assert FileNameKey[i] as int == "filename="[i] as int;
      }
    }
    SplitWithoutSeparator(FileNameKey, QUOTE);
  }

  /** The only token that panics is `filename=` itself. */
  lemma BareTokenIsKey(t: seq<byte>)
    ensures Names(t) && BareToken(t) <==> t == FileNameKey
  {
    if Names(t) && BareToken(t) {
      SinglePiece(t, QUOTE);
    }
    KeyIsBare();
  }

  /** The loop fails exactly when some token naming a file is malformed, and
      then always with "Malformed form". */
  lemma {:induction false} ScanTokensErr(tokens: seq<seq<byte>>, name: seq<byte>)
    requires !ReachesBare(tokens)
    ensures ScanTokens(tokens, name).Err? <==>
              exists j :: 0 <= j < |tokens| && Names(tokens[j]) && MalformedToken(tokens[j])
    ensures ScanTokens(tokens, name).Err? ==> ScanTokens(tokens, name).error == MalformedForm
    decreases |tokens|
  {
    if tokens != [] {
      if !(Names(tokens[0]) && MalformedToken(tokens[0])) {
        var next := if Names(tokens[0]) then PieceAfterQuote(tokens[0]) else name;
        ScanTokensErr(tokens[1..], next);
        if exists j :: 0 <= j < |tokens| && Names(tokens[j]) && MalformedToken(tokens[j]) {
          var j :| 0 <= j < |tokens| && Names(tokens[j]) && MalformedToken(tokens[j]);
          assert tokens[1..][j - 1] == tokens[j];
        }
      }
    }
  }

  /** `tokens[j]` names a file, passes the guard, and no later token names
      a file: the token whose value the loop keeps. */
  predicate LastNaming(tokens: seq<seq<byte>>, j: int)
  {
    && 0 <= j < |tokens| && Names(tokens[j]) && |Split(tokens[j], QUOTE)| >= 2
    && forall k :: j < k < |tokens| ==> !Names(tokens[k])
  }

  /** When the loop succeeds, `name` ends up as the piece after the first `"`
      of the LAST token naming a file, or unchanged when no token names one. */
  lemma {:induction false} ScanTokensOk(tokens: seq<seq<byte>>, name: seq<byte>)
    requires !ReachesBare(tokens) && ScanTokens(tokens, name).Ok?
    ensures || ((forall j :: 0 <= j < |tokens| ==> !Names(tokens[j])) && ScanTokens(tokens, name).name == name)
            || (exists j :: LastNaming(tokens, j) && ScanTokens(tokens, name).name == PieceAfterQuote(tokens[j]))
    decreases |tokens|
  {
    if tokens != [] {
      var next := if Names(tokens[0]) then PieceAfterQuote(tokens[0]) else name;
      ScanTokensOk(tokens[1..], next);
      var r := ScanTokens(tokens, name).name;
      var rest := tokens[1..];
      if forall j :: 0 <= j < |rest| ==> !Names(rest[j]) {
        if Names(tokens[0]) {
          assert forall k :: 0 < k < |tokens| ==> !Names(tokens[k]) by {
            forall k | 0 < k < |tokens| ensures !Names(tokens[k]) {
              assert tokens[k] == rest[k - 1];
            }
          }
          assert LastNaming(tokens, 0);
        } else {
          assert forall j :: 0 <= j < |tokens| ==> !Names(tokens[j]) by {
            forall j | 0 <= j < |tokens| ensures !Names(tokens[j]) {
              if j > 0 { assert tokens[j] == rest[j - 1]; }
            }
          }
        }
      } else {
        var j :| LastNaming(rest, j) && r == PieceAfterQuote(rest[j]);
        assert tokens[j + 1] == rest[j];
        assert forall k :: j + 1 < k < |tokens| ==> !Names(tokens[k]) by {
          forall k | j + 1 < k < |tokens| ensures !Names(tokens[k]) {
            assert tokens[k] == rest[k - 1];
          }
        }
        assert LastNaming(tokens, j + 1);
      }
    }
  }

  /** A successful extraction is a non-empty name holding no `"` and no
      space, taken from the last space-separated token that mentions
      `filename=`, after that token's first `"`. */
  lemma FileNameOk(form: seq<byte>)
    requires FilenameCannotPanic(form) && FileNameFromForm(form).Ok?
    ensures FileNameFromForm(form).name != []
    ensures QUOTE !in FileNameFromForm(form).name && SP !in FileNameFromForm(form).name
    ensures exists j :: LastNaming(Split(form, SP), j)
                        && FileNameFromForm(form).name == PieceAfterQuote(Split(form, SP)[j])
  {
    var tokens := Split(form, SP);
    var name := FileNameFromForm(form).name;
    var r := ScanTokens(tokens, []);
    assert r.Ok? && r.name == name && name != [];
    ScanTokensOk(tokens, []);
    var j :| LastNaming(tokens, j) && name == PieceAfterQuote(tokens[j]);
    SplitPieces(form, SP);
    SplitPieces(tokens[j], QUOTE);
    assert QUOTE !in name;
    assert SP !in tokens[j];
  }

  /** "Malformed form" comes back exactly when some token naming a file
      fails the two-piece guard. */
  lemma FileNameMalformed(form: seq<byte>)
    requires FilenameCannotPanic(form)
    ensures FileNameFromForm(form) == Err(MalformedForm) <==>
              exists j :: 0 <= j < |Split(form, SP)| && Names(Split(form, SP)[j]) && MalformedToken(Split(form, SP)[j])
  {
    ScanTokensErr(Split(form, SP), []);
    assert FileNameFromForm(form) == Err(MalformedForm) <==> ScanTokens(Split(form, SP), []).Err?;
  }

  /** "File name not found" comes back exactly when no token is malformed and
      either no token names a file or the last one that does yields an empty
      name (as `filename=""` does). */
  lemma FileNameMissing(form: seq<byte>)
    requires FilenameCannotPanic(form)
    ensures FileNameFromForm(form) == Err(FileNameNotFound) <==>
              && (forall j :: 0 <= j < |Split(form, SP)| && Names(Split(form, SP)[j]) ==> !MalformedToken(Split(form, SP)[j]))
              && ((forall j :: 0 <= j < |Split(form, SP)| ==> !Names(Split(form, SP)[j]))
                  || exists j :: LastNaming(Split(form, SP), j) && PieceAfterQuote(Split(form, SP)[j]) == [])
  {
    var tokens := Split(form, SP);
    ScanTokensErr(tokens, []);
    if ScanTokens(tokens, []).Ok? {
      ScanTokensOk(tokens, []);
      // the last naming token is unique, so any two witnesses agree
      assert forall i, j :: LastNaming(tokens, i) && LastNaming(tokens, j) ==> i == j;
    }
  }

  /** `get_filename_from_form`: the `for` loop over the space-separated
      tokens, overwriting `name` with every token that names a file. */
  method GetFilenameFromForm(form: seq<byte>) returns (r: FormResult)
    requires FilenameCannotPanic(form)
    ensures r == FileNameFromForm(form)
  {
    var tokens := Split(form, SP);
    var name: seq<byte> := [];
    for i := 0 to |tokens|
      invariant !ReachesBare(tokens[i..])
      invariant ScanTokens(tokens, []) == ScanTokens(tokens[i..], name)
    {
      var s := tokens[i];
      assert tokens[i..][1..] == tokens[i + 1..];
      if Contains(s, FileNameKey) {
        var tmp := Split(s, QUOTE);
        if |tmp| != 2 && tmp[0] != FileNameKey {
          return Err(MalformedForm);
        }
        name := tmp[1];
      }
    }
    if name == [] {
      return Err(FileNameNotFound);
    }
    return Ok(name);
  }

  /** Splitting valid UTF-8 at an ASCII byte gives valid UTF-8 pieces, so
      the tokens and the file name are valid Rust strings. */
  lemma {:induction false} SplitKeepsUtf8(s: seq<byte>, sep: byte)
    requires ValidUtf8(s) && sep < 0x80
    ensures forall i :: 0 <= i < |Split(s, sep)| ==> ValidUtf8(Split(s, sep)[i])
    decreases |s|
  {
    if sep !in s {
      SplitWithoutSeparator(s, sep);
    } else {
      var k := IndexOf(s, sep);
      Utf8CutAtAscii(s, k);
      SplitKeepsUtf8(s[k + 1..], sep);
      SplitAtFirst(s, sep, k);
    }
  }

  // ---------------------------------------------------------------------
  // parse_post_form: the header scan

  const MaxLen: nat := 512

  /** Index `j` of `s` holds the `\n` that completes `\r\n\r\n`, and the scan
      is far enough in to look for it (`read_total > 4`). */
  predicate SepAt(s: seq<byte>, j: int)
  {
    5 <= j < |s| && s[j] == LF && s[j - 1] == CR && s[j - 2] == LF && s[j - 3] == CR
  }

  predicate NoSepIn(s: seq<byte>, lo: int, hi: int)
  {
    forall j :: lo <= j < hi ==> !SepAt(s, j)
  }

  /** How the loop ends: the buffer filled up, the stream ended, or the
      separator was seen with `len` bytes buffered. */
  datatype ScanOutcome = TooLong | EndOfStream | Separator(len: nat)

  /** The outcome of the loop over the unread body `rest` once `k` bytes are
      buffered. */
  function Scan(rest: seq<byte>, k: nat): (o: ScanOutcome)
    requires k <= MaxLen
    ensures o.Separator? ==> k < o.len <= MaxLen && o.len <= |rest|
    decreases MaxLen - k
  {
    if k >= MaxLen then TooLong
    else if k >= |rest| then EndOfStream
    else if SepAt(rest, k) then Separator(k + 1)
    else Scan(rest, k + 1)
  }

  /** Bytes taken from the body: the 512 buffered ones, all of them, or
      exactly those up to and including the separator. */
  function Consumed(rest: seq<byte>, o: ScanOutcome): nat
  {
    match o
    case TooLong => MaxLen
    case EndOfStream => |rest|
    case Separator(n) => n
  }

  /** The scan stops at the first separator within the first 512 bytes. */
  lemma {:induction false} ScanSeparatorIff(rest: seq<byte>, k: nat, n: nat)
    requires k <= MaxLen
    ensures Scan(rest, k) == Separator(n) <==>
              k < n <= MaxLen && n <= |rest| && SepAt(rest, n - 1) && NoSepIn(rest, k, n - 1)
    decreases MaxLen - k
  {
    if k < MaxLen && k < |rest| && !SepAt(rest, k) {
      ScanSeparatorIff(rest, k + 1, n);
    }
  }

  /** "Post form is too long": 512 bytes arrived without a separator. */
  lemma {:induction false} ScanTooLongIff(rest: seq<byte>, k: nat)
    requires k <= MaxLen && k <= |rest|
    ensures Scan(rest, k) == TooLong <==> |rest| >= MaxLen && NoSepIn(rest, k, MaxLen)
    decreases MaxLen - k
  {
    if k < MaxLen && k < |rest| && !SepAt(rest, k) {
      ScanTooLongIff(rest, k + 1);
    }
  }

  /** "Malformed form" from the loop: the body ended, short of 512 bytes,
      without a separator. */
  lemma {:induction false} ScanEndIff(rest: seq<byte>, k: nat)
    requires k <= MaxLen && k <= |rest|
    ensures Scan(rest, k) == EndOfStream <==> |rest| < MaxLen && NoSepIn(rest, k, |rest|)
    decreases MaxLen - k
  {
    if k < MaxLen && k < |rest| && !SepAt(rest, k) {
      ScanEndIff(rest, k + 1);
    }
  }

  /** The scan never takes more than 512 bytes, nor more than the body has. */
  lemma ScanConsumedBound(rest: seq<byte>)
    ensures Consumed(rest, Scan(rest, 0)) <= MaxLen
    ensures Consumed(rest, Scan(rest, 0)) <= |rest|
  {
    if Scan(rest, 0) == EndOfStream {
      ScanEndIff(rest, 0);
    } else if Scan(rest, 0) == TooLong {
      ScanTooLongIff(rest, 0);
    }
  }

  /** No call can panic while turning the body into a file name: a header
      that passes the UTF-8 and length checks has no bare `filename=` token
      before a malformed one. */
  predicate FormCannotPanic(rest: seq<byte>)
  {
    match Scan(rest, 0)
    case Separator(n) => ValidUtf8(rest[..n]) && n >= 50 ==> FilenameCannotPanic(rest[..n])
    case _ => true
  }

  /** Specification of `parse_post_form` on the unread body `rest`: scan the
      header, then decode it, reject one shorter than 50 bytes, and extract
      the file name (`f.len()` counts bytes). */
  function ParseForm(rest: seq<byte>): FormResult
    requires FormCannotPanic(rest)
  {
    match Scan(rest, 0)
    case TooLong => Err(FormTooLong)
    case EndOfStream => Err(MalformedForm)
    case Separator(n) =>
      var header := rest[..n];
      if !ValidUtf8(header) then Err(InvalidUtf8)
      else if n < 50 then Err(MalformedForm)
      else FileNameFromForm(header)
  }

  /** "Post form is too long" is returned exactly when the first 512 bytes of
      the body hold no separator. */
  lemma ParseFormTooLong(rest: seq<byte>)
    requires FormCannotPanic(rest)
    ensures ParseForm(rest) == Err(FormTooLong) <==> |rest| >= MaxLen && NoSepIn(rest, 0, MaxLen)
  {
    ScanTooLongIff(rest, 0);
    match Scan(rest, 0)
    case Separator(n) =>
      if ValidUtf8(rest[..n]) && n >= 50 {
        ScanTokensErr(Split(rest[..n], SP), []);
      }
    case _ =>
  }

  /** A header that fails the UTF-8 check or is shorter than 50 bytes never
      reaches `get_filename_from_form`, so it cannot panic and gives the
      UTF-8 error or "Malformed form". */
  lemma ParseFormHeaderChecks(rest: seq<byte>, n: nat)
    requires Scan(rest, 0) == Separator(n)
    ensures !ValidUtf8(rest[..n]) ==> FormCannotPanic(rest) && ParseForm(rest) == Err(InvalidUtf8)
    ensures ValidUtf8(rest[..n]) && n < 50 ==> FormCannotPanic(rest) && ParseForm(rest) == Err(MalformedForm)
  {
  }

  /** A body that ends, short of 512 bytes, before any separator is a
      "Malformed form". */
  lemma ParseFormEarlyEnd(rest: seq<byte>)
    requires |rest| < MaxLen && NoSepIn(rest, 0, |rest|)
    ensures FormCannotPanic(rest) && ParseForm(rest) == Err(MalformedForm)
  {
    ScanEndIff(rest, 0);
  }

  /** What a successful parse guarantees: a header of 50 to 512 bytes ending
      at the first separator, valid UTF-8, whose file name is the result; the
      name is non-empty, has no `"` or space, and is valid UTF-8 itself. */
  lemma ParseFormOk(rest: seq<byte>)
    requires FormCannotPanic(rest) && ParseForm(rest).Ok?
    ensures exists n :: 50 <= n <= MaxLen && n <= |rest| && SepAt(rest, n - 1) && NoSepIn(rest, 0, n - 1)
                        && ValidUtf8(rest[..n]) && FilenameCannotPanic(rest[..n])
                        && FileNameFromForm(rest[..n]) == ParseForm(rest)
    ensures ParseForm(rest).name != [] && QUOTE !in ParseForm(rest).name && SP !in ParseForm(rest).name
    ensures ValidUtf8(ParseForm(rest).name)
  {
    var n := Scan(rest, 0).len;
    var header := rest[..n];
    ScanSeparatorIff(rest, 0, n);
    FileNameOk(header);
    var tokens := Split(header, SP);
    var j :| LastNaming(tokens, j) && ParseForm(rest).name == PieceAfterQuote(tokens[j]);
    SplitKeepsUtf8(header, SP);
    SplitKeepsUtf8(tokens[j], QUOTE);
  }

  // ---------------------------------------------------------------------
  // The request body, read through `req.read(&mut tmp_buff)`

  /** The unread part of the request body. A read into a one-byte buffer
      yields the next byte, or 0 bytes once the body is exhausted. */
  class RequestBody {
    const data: seq<byte>
    var pos: nat

    ghost predicate Valid()
      reads this
    {
      pos <= |data|
    }

    constructor (data: seq<byte>)
      ensures Valid() && this.data == data && pos == 0
    {
      this.data := data;
      pos := 0;
    }

    method Read(buf: array<byte>) returns (n: nat)
      requires Valid() && buf.Length == 1
      modifies this, buf
      ensures Valid()
      ensures n == if old(pos) < |data| then 1 else 0
      ensures pos == old(pos) + n
      ensures n == 1 ==> buf[0] == data[old(pos)]
      ensures n == 0 ==> buf[0] == old(buf[0])
    {
      if pos < |data| {
        buf[0] := data[pos];
        pos := pos + 1;
        n := 1;
      } else {
        n := 0;
      }
    }
  }

  /** `parse_post_form`: fill the fixed 512-byte buffer one byte at a time
      until `\r\n\r\n`, then decode the buffered header and extract the file
      name. No byte past the separator is taken from the body. */
  method ParsePostForm(req: RequestBody) returns (r: FormResult)
    requires req.Valid() && FormCannotPanic(req.data[req.pos..])
    modifies req
    ensures req.Valid()
    ensures r == ParseForm(req.data[old(req.pos)..])
    ensures req.pos == old(req.pos) + Consumed(req.data[old(req.pos)..], Scan(req.data[old(req.pos)..], 0))
  {
    ghost var start := req.pos;
    ghost var rest := req.data[start..];
    var tmpBuff := new byte[1];
    var buff := new byte[MaxLen];
    var readTotal: nat := 0;
    var endReached := false;

    while !endReached
      invariant req.Valid() && req.pos == start + readTotal
      invariant readTotal <= MaxLen && readTotal <= |rest|
      invariant buff[..readTotal] == rest[..readTotal]
      invariant !endReached ==> Scan(rest, 0) == Scan(rest, readTotal)
      invariant endReached ==> Scan(rest, 0) == Separator(readTotal)
      decreases MaxLen - readTotal
    {
      if readTotal >= MaxLen {
        return Err(FormTooLong);
      }
      var read := req.Read(tmpBuff);
      // the stream ended before the form did
      if read < 1 {
        return Err(MalformedForm);
      }
      assert tmpBuff[0] == rest[readTotal];
      assert readTotal > 4 ==> buff[readTotal - 1] == rest[readTotal - 1] && buff[readTotal - 2] == rest[readTotal - 2]
                               && buff[readTotal - 3] == rest[readTotal - 3];
      assert Scan(rest, readTotal) == if SepAt(rest, readTotal) then Separator(readTotal + 1) else Scan(rest, readTotal + 1);
      if readTotal > 4 &&
         tmpBuff[0] == LF &&
         buff[readTotal - 1] == CR &&
         buff[readTotal - 2] == LF &&
         buff[readTotal - 3] == CR
      {
        endReached := true;
      }
      buff[readTotal] := tmpBuff[0];
      readTotal := readTotal + read;
    }

    var form := buff[..readTotal];
    if !ValidUtf8(form) {
      return Err(InvalidUtf8);
    }
    if readTotal < 50 {
      return Err(MalformedForm);
    }
    r := GetFilenameFromForm(form);
  }
}
