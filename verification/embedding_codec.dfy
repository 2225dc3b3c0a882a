/**
 * The text form in which `FaceDatabase` stores an embedding: the components of
 * the first row, each written with `Float.toString` and followed by a comma,
 * and the parser that reads it back with `String.split(",")` and
 * `Float.parseFloat`.
 *
 * The float printer and parser are parameters: `show` stands for
 * `Float.toString` and `parse` for `Float.parseFloat`, whose
 * `NumberFormatException` is a `None`. The round trip is proved for any pair
 * that reads back what it prints.
 */
module EmbeddingCodec {
  import opened Wrappers
  import opened Recognition

  /** `Float.toString` */
  type Show = real -> string

  /** `Float.parseFloat`; `None` when it throws `NumberFormatException`. */
  type Parse = string -> Option<real>

  predicate CommaFree(s: string) {
    forall i | 0 <= i < |s| :: s[i] != ','
  }

  /** The number of times c occurs in s. */
  function Count(s: string, c: char): nat {
    if s == [] then 0 else (if s[0] == c then 1 else 0) + Count(s[1..], c)
  }

  lemma {:induction false} CountAppend(a: string, b: string, c: char)
    ensures Count(a + b, c) == Count(a, c) + Count(b, c)
  {
    if a == [] {
      assert a + b == b;
    } else {
      assert (a + b)[0] == a[0];
      assert (a + b)[1..] == a[1..] + b;
      CountAppend(a[1..], b, c);
    }
  }

  lemma {:induction false} CountCommaFree(s: string)
    requires CommaFree(s)
    ensures Count(s, ',') == 0
  {
    if s != [] {
      CountCommaFree(s[1..]);
    }
  }

  // ---------------------------------------------------------------------
  // Encoding

  /** The printed components of v, in order. */
  function Shows(v: Vector, show: Show): (tokens: seq<string>)
    ensures |tokens| == |v|
    ensures forall i | 0 <= i < |v| :: tokens[i] == show(v[i])
  {
    if v == [] then [] else [show(v[0])] + Shows(v[1..], show)
  }

  /** Each component's text followed by a comma, in order. */
  function JoinComponents(v: Vector, show: Show): string {
    if v == [] then "" else show(v[0]) + "," + JoinComponents(v[1..], show)
  }

  /**
   * `embeddingToString`: "" for a null or zero-row embedding, otherwise the
   * components of row 0 only, each followed by a comma.
   */
  function EmbeddingToString(embedding: Option<Embedding>, show: Show): (s: string)
    ensures embedding.None? || embedding.value == [] ==> s == ""
  {
    if embedding.None? || |embedding.value| == 0 then "" else JoinComponents(embedding.value[0], show)
  }

  /** Printers whose output never contains a comma give one comma per component, the last one at the end. */
  lemma {:induction false} JoinComponentsCommas(v: Vector, show: Show)
    requires forall k | 0 <= k < |v| :: CommaFree(show(v[k]))
    ensures Count(JoinComponents(v, show), ',') == |v|
    ensures var s := JoinComponents(v, show);
            |s| > 0 && s[|s| - 1] == ',' <==> |v| > 0
  {
    if v != [] {
      var t := show(v[0]);
      var rest := JoinComponents(v[1..], show);
      JoinComponentsCommas(v[1..], show);
      assert JoinComponents(v, show) == t + ("," + rest);
      CountAppend(t, "," + rest, ',');
      CountAppend(",", rest, ',');
      CountCommaFree(t);
      assert Count(",", ',') == 1;
    }
  }

  // ---------------------------------------------------------------------
  // Java's String.split(",")

  /** The pieces of s between commas, empty ones included: one more than the commas in s. */
  function SplitAll(s: string): (tokens: seq<string>)
    ensures |tokens| >= 1
  {
    if s == [] then [""]
    else if s[0] == ',' then [""] + SplitAll(s[1..])
    else
      var rest := SplitAll(s[1..]);
      [[s[0]] + rest[0]] + rest[1..]
  }

  /** The pieces joined back with commas between them. */
  function JoinWithCommas(tokens: seq<string>): string
    requires |tokens| >= 1
  {
    if |tokens| == 1 then tokens[0] else tokens[0] + "," + JoinWithCommas(tokens[1..])
  }

  /** SplitAll cuts s at its commas and nowhere else: the pieces are comma-free and rejoin to s. */
  lemma {:induction false} SplitAllJoins(s: string)
    ensures JoinWithCommas(SplitAll(s)) == s
    ensures forall k | 0 <= k < |SplitAll(s)| :: CommaFree(SplitAll(s)[k])
  {
    if s != [] {
      SplitAllJoins(s[1..]);
      var rest := SplitAll(s[1..]);
      if s[0] == ',' {
        assert SplitAll(s)[1..] == rest;
      } else {
        var tokens := SplitAll(s);
        assert tokens[1..] == rest[1..];
        assert CommaFree(tokens[0]) by {
          assert tokens[0] == [s[0]] + rest[0];
          assert CommaFree(rest[0]);
        }
        assert forall k | 1 <= k < |tokens| :: tokens[k] == rest[k];
        if |rest| == 1 {
          assert JoinWithCommas(tokens) == [s[0]] + rest[0];
        } else {
          assert JoinWithCommas(tokens) == [s[0]] + (rest[0] + "," + JoinWithCommas(rest[1..]));
        }
        assert [s[0]] + s[1..] == s;
      }
    }
  }

  /** A comma-free piece followed by a comma splits off as one token. */
  lemma {:induction false} SplitAllAfterToken(t: string, rest: string)
    requires CommaFree(t)
    ensures SplitAll(t + "," + rest) == [t] + SplitAll(rest)
  {
    if t == [] {
      assert t + "," + rest == [','] + rest;
      assert ([','] + rest)[1..] == rest;
    } else {
      var s := t + "," + rest;
      assert s[0] == t[0];
      assert s[1..] == t[1..] + "," + rest;
      SplitAllAfterToken(t[1..], rest);
      assert [t[0]] + t[1..] == t;
    }
  }

  /** A comma-free string is a single piece. */
  lemma {:induction false} SplitAllCommaFree(s: string)
    requires CommaFree(s)
    ensures SplitAll(s) == [s]
  {
    if s != [] {
      SplitAllCommaFree(s[1..]);
      assert [s[0]] + s[1..] == s;
    }
  }

  /** Drops the empty strings at the end of tokens. */
  function DropTrailingEmpty(tokens: seq<string>): (kept: seq<string>)
    ensures |kept| <= |tokens| && kept == tokens[..|kept|]
    ensures kept == [] || kept[|kept| - 1] != ""
    ensures forall k | |kept| <= k < |tokens| :: tokens[k] == ""
  {
    if tokens != [] && tokens[|tokens| - 1] == "" then DropTrailingEmpty(tokens[..|tokens| - 1])
    else tokens
  }

  /**
   * `s.split(",")`: the pieces between commas with the trailing empty ones
   * removed; a string without any comma, "" included, is returned whole.
   */
  function JavaSplit(s: string): seq<string> {
    if s == "" then [""] else DropTrailingEmpty(SplitAll(s))
  }

  // ---------------------------------------------------------------------
  // Decoding

  /**
   * `Float.parseFloat` over the tokens in order: the values, or the first
   * token that does not parse.
   */
  function ParseTokens(tokens: seq<string>, parse: Parse): (r: Result<Vector, string>)
    ensures r.Success? <==> forall k | 0 <= k < |tokens| :: parse(tokens[k]).Some?
    ensures r.Success? ==> |r.value| == |tokens| &&
                           forall k | 0 <= k < |tokens| :: r.value[k] == parse(tokens[k]).value
    ensures r.Failure? ==> exists k | 0 <= k < |tokens| :: tokens[k] == r.error && parse(tokens[k]).None?
  {
    if tokens == [] then Success([])
    else match parse(tokens[0])
      case None => Failure(tokens[0])
      case Some(x) =>
        var rest := ParseTokens(tokens[1..], parse);
        if rest.Failure? then Failure(rest.error) else Success([x] + rest.value)
  }

  /**
   * `stringToEmbedding`: one row of length 0 for null or "", otherwise one row
   * holding the parsed tokens of `split(",")`. A token that does not parse
   * makes the whole call fail (the `NumberFormatException` propagates).
   */
  function StringToEmbedding(s: Option<string>, parse: Parse): (r: Result<Embedding, string>)
    ensures s.None? || s.value == "" ==> r == Success([[]])
    ensures s.Some? && s.value != "" ==>
              (r.Success? <==> forall k | 0 <= k < |JavaSplit(s.value)| :: parse(JavaSplit(s.value)[k]).Some?)
    ensures r.Success? ==> |r.value| == 1
    ensures s.Some? && s.value != "" && r.Success? ==>
              |r.value[0]| == |JavaSplit(s.value)| &&
              forall k | 0 <= k < |r.value[0]| :: parse(JavaSplit(s.value)[k]) == Some(r.value[0][k])
  {
    if s.None? || s.value == "" then Success([[]])
    else
      var values :- ParseTokens(JavaSplit(s.value), parse);
      Success([values])
  }

  // ---------------------------------------------------------------------
  // Round trip

  /** The encoder's text splits into the printed components and one empty piece after the last comma. */
  lemma {:induction false} SplitJoined(v: Vector, show: Show)
    requires forall k | 0 <= k < |v| :: CommaFree(show(v[k]))
    ensures SplitAll(JoinComponents(v, show)) == Shows(v, show) + [""]
  {
    if v != [] {
      SplitJoined(v[1..], show);
      SplitAllAfterToken(show(v[0]), JoinComponents(v[1..], show));
    }
  }

  /** Printers that never print "" leave nothing for `split` to drop but the final empty piece. */
  lemma DropFinalEmpty(tokens: seq<string>)
    requires forall k | 0 <= k < |tokens| :: tokens[k] != ""
    ensures DropTrailingEmpty(tokens + [""]) == tokens
  {
    var all := tokens + [""];
    assert all[..|all| - 1] == tokens;
  }

  /**
   * Decoding what was encoded gives back row 0 as the only row, for any
   * printer whose text is non-empty, comma-free and parsed back to the same
   * value (as `Float.toString` and `Float.parseFloat` are).
   */
  lemma RoundTrip(embedding: Embedding, show: Show, parse: Parse)
    requires |embedding| >= 1
    requires forall k | 0 <= k < |embedding[0]| ::
               var x := embedding[0][k]; show(x) != "" && CommaFree(show(x)) && parse(show(x)) == Some(x)
    ensures StringToEmbedding(Some(EmbeddingToString(Some(embedding), show)), parse) == Success([embedding[0]])
  {
    var v := embedding[0];
    var text := EmbeddingToString(Some(embedding), show);
    if v != [] {
      SplitJoined(v, show);
      var tokens := Shows(v, show);
      DropFinalEmpty(tokens);
      assert text != "" by {
        JoinComponentsCommas(v, show);
      }
      assert JavaSplit(text) == tokens;
      var parsed := ParseTokens(tokens, parse);
      assert parsed.Success?;
      assert parsed.value == v;
    }
  }

  /** Cutting at one comma: the pieces of the text before it, then those of the text after it. */
  lemma {:induction false} SplitAllAtComma(a: string, b: string)
    ensures SplitAll(a + "," + b) == SplitAll(a) + SplitAll(b)
  {
    if a == [] {
      assert a + "," + b == [','] + b;
      SplitAllCons(',', b);
    } else {
      assert a + "," + b == [a[0]] + (a[1..] + "," + b);
      assert a == [a[0]] + a[1..];
      SplitAllAtComma(a[1..], b);
      SplitAllCons(a[0], a[1..] + "," + b);
      SplitAllCons(a[0], a[1..]);
      var rest := SplitAll(a[1..]);
      var tail := SplitAll(b);
      if a[0] == ',' {
        AppendAssoc([""], rest, tail);
      } else {
        assert (rest + tail)[0] == rest[0];
        assert (rest + tail)[1..] == rest[1..] + tail;
        AppendAssoc([[a[0]] + rest[0]], rest[1..], tail);
      }
    }
  }

  /** One step of the split: a comma ends a piece, any other character starts or extends the first one. */
  lemma SplitAllCons(c: char, rest: string)
    ensures SplitAll([c] + rest) ==
              if c == ',' then [""] + SplitAll(rest)
              else [[c] + SplitAll(rest)[0]] + SplitAll(rest)[1..]
  {
    assert ([c] + rest)[0] == c;
    assert ([c] + rest)[1..] == rest;
  }

  /** A character other than a comma ends up in some non-empty piece. */
  lemma {:induction false} NonCommaMakesPiece(s: string, j: nat)
    requires j < |s| && s[j] != ','
    ensures exists k | 0 <= k < |SplitAll(s)| :: SplitAll(s)[k] != ""
  {
    if s[0] == ',' {
      NonCommaMakesPiece(s[1..], j - 1);
      var k :| 0 <= k < |SplitAll(s[1..])| && SplitAll(s[1..])[k] != "";
      assert SplitAll(s)[k + 1] == SplitAll(s[1..])[k];
    } else {
      assert |SplitAll(s)[0]| >= 1;
    }
  }

  /**
   * Two commas in a row put an empty token inside the text, and since
   * `Float.parseFloat("")` throws, decoding fails rather than skipping it,
   * whenever something other than commas follows (`split` drops only the
   * trailing empty tokens).
   */
  lemma InteriorEmptyTokenFails(before: string, after: string, parse: Parse)
    requires exists j | 0 <= j < |after| :: after[j] != ','
    requires parse("").None?
    ensures StringToEmbedding(Some(before + ",," + after), parse).Failure?
  {
    var s := before + ",," + after;
    var head := SplitAll(before);
    var tail := SplitAll(after);
    assert SplitAll(s) == head + [""] + tail by {
      assert s == before + "," + ("," + after);
      SplitAllAtComma(before, "," + after);
      assert "," + after == "" + "," + after;
      SplitAllAtComma("", after);
    }
    var j :| 0 <= j < |after| && after[j] != ',';
    NonCommaMakesPiece(after, j);
    EmptyTokenKept(head, tail);
    assert JavaSplit(s)[|head|] == "";
  }

  /** An empty token with a non-empty one somewhere after it survives the dropping of trailing empties. */
  lemma EmptyTokenKept(head: seq<string>, tail: seq<string>)
    requires exists k | 0 <= k < |tail| :: tail[k] != ""
    ensures var kept := DropTrailingEmpty(head + [""] + tail);
            |head| < |kept| && kept[|head|] == ""
  {
    var tokens := head + [""] + tail;
    var k :| 0 <= k < |tail| && tail[k] != "";
    assert tokens[|head| + 1 + k] == tail[k];
    assert tokens[|head|] == "";
  }
}
