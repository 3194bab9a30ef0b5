/** `split_csv_args` and the `width, height` unpacking of the size option. */
module CsvArgs {
  import opened PyStr

  datatype Result<T, E> = Ok(value: T) | Err(error: E)

  /** Python's `ValueError` from unpacking a list of the wrong length into
      `width, height`; `got` is the number of fields there were. */
  datatype UnpackError = WrongFieldCount(got: nat)

  /** Non-empty, with no whitespace at either end: what `strip()` leaves of
      a string that is not blank. */
  predicate Trimmed(f: string)
  {
    f != [] && f[0] !in Whitespace && f[|f| - 1] !in Whitespace
  }

  /** What `split_csv_args` can return as one element: non-empty, no comma,
      no whitespace at either end. */
  predicate IsField(f: string)
  {
    Trimmed(f) && ',' !in f
  }

  /** `[p.strip() for p in pieces if p.strip()]` */
  function NonBlankStripped(pieces: seq<string>): (r: seq<string>)
    ensures |r| <= |pieces|
    ensures forall f :: f in r ==> Trimmed(f)
  {
    if pieces == [] then []
    else
      var f := Strip(pieces[0]);
      if f == [] then NonBlankStripped(pieces[1..]) else [f] + NonBlankStripped(pieces[1..])
  }

  /** Stripping never introduces a comma into a piece. */
  lemma {:induction false} NonBlankStrippedCommaFree(pieces: seq<string>)
    requires forall p :: p in pieces ==> ',' !in p
    ensures forall f :: f in NonBlankStripped(pieces) ==> ',' !in f
    decreases |pieces|
  {
    if pieces != [] {
      assert pieces[0] in pieces;
      StripKeepsAbsent(pieces[0], Whitespace, ',');
      assert forall p :: p in pieces[1..] ==> p in pieces;
      NonBlankStrippedCommaFree(pieces[1..]);
    }
  }

  /** The comprehension works piece by piece: the names of a concatenation
      of piece lists are the names of the first list followed by those of
      the second, so order is kept and nothing is merged. */
  lemma {:induction false} NonBlankStrippedAppend(xs: seq<string>, ys: seq<string>)
    ensures NonBlankStripped(xs + ys) == NonBlankStripped(xs) + NonBlankStripped(ys)
    decreases |xs|
  {
    if xs == [] {
      assert xs + ys == ys;
    } else {
      assert (xs + ys)[0] == xs[0];
      assert (xs + ys)[1..] == xs[1..] + ys;
      NonBlankStrippedAppend(xs[1..], ys);
    }
  }

  /** One piece gives its stripped text when that is not blank, and
      nothing when it is. */
  lemma NonBlankStrippedSingle(p: string)
    ensures NonBlankStripped([p]) == if AllIn(p, Whitespace) then [] else [Strip(p)]
  {
    StripAllIn(p, Whitespace);
    assert [p][1..] == [];
  }

  /** `split_csv_args(arg_string)`: the comma-separated names of an option
      string, trimmed, with blank names dropped. */
  function SplitCsvArgs(argString: string): (r: seq<string>)
    ensures forall f :: f in r ==> IsField(f)
  {
    var pieces := Split(Strip(argString), [',']);
    SplitPiecesFree(Strip(argString), [',']);
    PiecesCommaFree(pieces);
    NonBlankStrippedCommaFree(pieces);
    NonBlankStripped(pieces)
  }

  /** The outer `strip()` changes no name: the names are the stripped,
      non-blank pieces of the option split at its commas, in order. */
  lemma SplitCsvArgsPieces(argString: string)
    ensures SplitCsvArgs(argString) == NonBlankStripped(Split(argString, [',']))
  {
    var t := Strip(argString);
    var w1, w2 := StripParts(argString, Whitespace);
    var pieces := Split(t, [',']);
    assert Join(pieces, [',']) == t by {
      JoinSplit(t, [',']);
    }
    assert forall k :: 0 <= k < |pieces| ==> ',' !in pieces[k] by {
      SplitPiecesFree(t, [',']);
      forall k | 0 <= k < |pieces| ensures ',' !in pieces[k] {
        ContainsChar(pieces[k], ',');
      }
    }
    PaddedPieces(pieces, w1, w2, argString);
  }

  /** Comma-free pieces joined with commas and padded with whitespace at
      both ends split back into pieces with the same names. */
  lemma PaddedPieces(pieces: seq<string>, w1: string, w2: string, s: string)
    requires pieces != [] && AllIn(w1, Whitespace) && AllIn(w2, Whitespace)
    requires forall k :: 0 <= k < |pieces| ==> ',' !in pieces[k]
    requires s == w1 + Join(pieces, [',']) + w2
    ensures NonBlankStripped(Split(s, [','])) == NonBlankStripped(pieces)
  {
    var first := [w1 + pieces[0]] + pieces[1..];
    var padded := first[..|first| - 1] + [first[|first| - 1] + w2];
    assert Join(padded, [',']) == s by {
      JoinPadFirst(pieces, w1, [',']);
      JoinPadLast(first, w2, [',']);
    }
    assert ',' !in w1 && ',' !in w2;
    forall k | 0 <= k < |first| ensures ',' !in first[k] {
      if k > 0 { assert first[k] == pieces[k]; }
    }
    forall k | 0 <= k < |padded| ensures ',' !in padded[k] {
      if k < |first| - 1 { assert padded[k] == first[k]; }
    }
    SplitJoin(padded, ',');
    PadFirstSameNames(pieces, w1);
    PadLastSameNames(first, w2);
  }

  /** Whitespace in front of the first piece changes no name. */
  lemma PadFirstSameNames(pieces: seq<string>, w: string)
    requires pieces != [] && AllIn(w, Whitespace)
    ensures NonBlankStripped([w + pieces[0]] + pieces[1..]) == NonBlankStripped(pieces)
  {
    var rest := pieces[1..];
    assert pieces == [pieces[0]] + rest;
    NonBlankStrippedAppend([w + pieces[0]], rest);
    NonBlankStrippedAppend([pieces[0]], rest);
    StripPaddedFront(w, pieces[0]);
    NonBlankStrippedSingle(w + pieces[0]);
    NonBlankStrippedSingle(pieces[0]);
  }

  /** Whitespace behind the last piece changes no name. */
  lemma PadLastSameNames(pieces: seq<string>, w: string)
    requires pieces != [] && AllIn(w, Whitespace)
    ensures NonBlankStripped(pieces[..|pieces| - 1] + [pieces[|pieces| - 1] + w]) == NonBlankStripped(pieces)
  {
    var init, last := pieces[..|pieces| - 1], pieces[|pieces| - 1];
    assert pieces == init + [last];
    NonBlankStrippedAppend(init, [last + w]);
    NonBlankStrippedAppend(init, [last]);
    StripPaddedBack(last, w);
    NonBlankStrippedSingle(last + w);
    NonBlankStrippedSingle(last);
  }

  lemma PiecesCommaFree(pieces: seq<string>)
    requires forall k :: 0 <= k < |pieces| ==> !Contains(pieces[k], [','])
    ensures forall p :: p in pieces ==> ',' !in p
  {
    forall p | p in pieces ensures ',' !in p {
      ContainsChar(p, ',');
    }
  }

  lemma JoinEnds(xs: seq<string>, sep: string)
    requires |xs| >= 1 && forall k :: 0 <= k < |xs| ==> xs[k] != []
    ensures Join(xs, sep) != []
    ensures Join(xs, sep)[0] == xs[0][0]
    ensures Join(xs, sep)[|Join(xs, sep)| - 1] == xs[|xs| - 1][|xs[|xs| - 1]| - 1]
    decreases |xs|
  {
    if |xs| > 1 {
      assert forall k :: 0 <= k < |xs[1..]| ==> xs[1..][k] == xs[k + 1];
      JoinEnds(xs[1..], sep);
    }
  }

  lemma {:induction false} NonBlankStrippedFields(fields: seq<string>)
    requires forall f :: f in fields ==> IsField(f)
    ensures NonBlankStripped(fields) == fields
    decreases |fields|
  {
    if fields != [] {
      assert IsField(fields[0]) by { assert fields[0] in fields; }
      StripNoop(fields[0], Whitespace);
      NonBlankStrippedFields(fields[1..]);
      assert fields == [fields[0]] + fields[1..];
    }
  }

  /** Round trip: the fields `split_csv_args` accepts, joined with commas,
      split back into exactly the same fields, in the same order. */
  lemma SplitCsvArgsJoin(fields: seq<string>)
    requires forall f :: f in fields ==> IsField(f)
    ensures SplitCsvArgs(Join(fields, ",")) == fields
  {
    var joined := Join(fields, ",");
    if fields == [] {
      assert Split("", [',']) == [""];
    } else {
      forall k | 0 <= k < |fields| ensures IsField(fields[k]) { assert fields[k] in fields; }
      JoinEnds(fields, ",");
      StripNoop(joined, Whitespace);
      assert Strip(joined) == joined;
      SplitJoin(fields, ',');
      assert Split(Strip(joined), [',']) == fields;
      NonBlankStrippedFields(fields);
    }
  }

  /** `split_csv_args` is idempotent through a comma join. */
  lemma SplitCsvArgsIdempotent(argString: string)
    ensures SplitCsvArgs(Join(SplitCsvArgs(argString), ",")) == SplitCsvArgs(argString)
  {
    SplitCsvArgsJoin(SplitCsvArgs(argString));
  }

  lemma JoinAllIn(xs: seq<string>, sep: string, chars: set<char>)
    requires AllIn(sep, chars)
    ensures AllIn(Join(xs, sep), chars) <==> forall k :: 0 <= k < |xs| ==> AllIn(xs[k], chars)
    decreases |xs|
  {
    if |xs| > 1 {
      JoinAllIn(xs[1..], sep, chars);
      var tail := Join(xs[1..], sep);
      var whole := xs[0] + sep + tail;
      if AllIn(whole, chars) {
        forall i | 0 <= i < |xs[0]| ensures xs[0][i] in chars { assert whole[i] == xs[0][i]; }
        forall i | 0 <= i < |tail| ensures tail[i] in chars { assert whole[|xs[0]| + |sep| + i] == tail[i]; }
        forall k | 0 <= k < |xs| ensures AllIn(xs[k], chars) {
          if k > 0 { assert xs[k] == xs[1..][k - 1]; }
        }
      }
    }
  }

  lemma {:induction false} NonBlankStrippedEmpty(pieces: seq<string>)
    ensures NonBlankStripped(pieces) == [] <==> forall p :: p in pieces ==> AllIn(p, Whitespace)
    decreases |pieces|
  {
    if pieces != [] {
      StripAllIn(pieces[0], Whitespace);
      NonBlankStrippedEmpty(pieces[1..]);
      assert forall p :: p in pieces <==> p == pieces[0] || p in pieces[1..];
    }
  }

  /** Stripping characters of `chars` does not change whether a string is
      made only of characters of a larger set `blank`. */
  lemma StripAllInSuperset(s: string, chars: set<char>, blank: set<char>)
    requires chars <= blank
    ensures AllIn(s, blank) <==> AllIn(StripChars(s, chars), blank)
  {
    var t := StripChars(s, chars);
    var o := StripOffset(s, chars);
    if AllIn(t, blank) {
      forall i | 0 <= i < |s| ensures s[i] in blank {
        if o <= i < o + |t| { assert s[i] == t[i - o]; }
      }
    }
    if AllIn(s, blank) {
      forall i | 0 <= i < |t| ensures t[i] in blank { assert t[i] == s[o + i]; }
    }
  }

  /** A string is made of whitespace and commas exactly when every piece
      between its commas is made of whitespace. */
  lemma CommaPiecesBlank(t: string)
    ensures AllIn(t, Whitespace + {','}) <==> forall p :: p in Split(t, [',']) ==> AllIn(p, Whitespace)
  {
    var blank := Whitespace + {','};
    var pieces := Split(t, [',']);
    JoinSplit(t, [',']);
    SplitPiecesFree(t, [',']);
    assert AllIn([','], blank);
    JoinAllIn(pieces, [','], blank);
    forall p | p in pieces ensures AllIn(p, blank) <==> AllIn(p, Whitespace) {
      ContainsChar(p, ',');
      if AllIn(p, blank) {
        forall i | 0 <= i < |p| ensures p[i] in Whitespace {
          assert p[i] != ',';
        }
      }
    }
    assert (forall k :: 0 <= k < |pieces| ==> AllIn(pieces[k], blank)) <==> (forall p :: p in pieces ==> AllIn(p, blank));
  }

  /** An option string yields no names exactly when it holds nothing but
      whitespace and commas (the empty string included). */
  lemma SplitCsvArgsEmpty(argString: string)
    ensures SplitCsvArgs(argString) == [] <==> AllIn(argString, Whitespace + {','})
  {
    var t := Strip(argString);
    StripAllInSuperset(argString, Whitespace, Whitespace + {','});
    CommaPiecesBlank(t);
    NonBlankStrippedEmpty(Split(t, [',']));
  }

  /** `width, height = split_csv_args(size)`: exactly two names, or the
      unpacking raises. */
  function ParseSize(size: string): (r: Result<(string, string), UnpackError>)
    ensures r.Ok? <==> |SplitCsvArgs(size)| == 2
    ensures r.Ok? ==> [r.value.0, r.value.1] == SplitCsvArgs(size)
    ensures r.Ok? ==> IsField(r.value.0) && IsField(r.value.1)
    ensures r.Err? ==> r.error.got == |SplitCsvArgs(size)| && r.error.got != 2
  {
    var fields := SplitCsvArgs(size);
    if |fields| == 2 then
      assert fields[0] in fields && fields[1] in fields;
      Ok((fields[0], fields[1]))
    else Err(WrongFieldCount(|fields|))
  }

  /** Writing an accepted size back in its canonical form `width,height`
      unpacks to the same two names. */
  lemma ParseSizeCanonical(size: string)
    ensures var r := ParseSize(size);
      r.Ok? ==> ParseSize(r.value.0 + "," + r.value.1) == r
  {
    var r := ParseSize(size);
    if r.Ok? {
      ParseSizeJoin(r.value.0, r.value.1);
    }
  }

  /** A size written as `width,height` with two well-formed names unpacks to
      exactly those two names. */
  lemma ParseSizeJoin(width: string, height: string)
    requires IsField(width) && IsField(height)
    ensures ParseSize(width + "," + height) == Ok((width, height))
  {
    SplitCsvArgsJoin([width, height]);
    assert Join([width, height], ",") == width + "," + height;
  }
}
