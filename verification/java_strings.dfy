/**
 * The parts of `java.lang.String` the core relies on: `trim()`, `split("/")`
 * (limit 0, so trailing empty strings are dropped) and the decimal rendering
 * that `StringBuilder.append(int)` produces for a positive counter.
 */
module JavaStrings {

  /** `String.trim()` removes every leading and trailing character up to U+0020. */
  function TrimStart(s: string): (r: string)
    ensures |r| <= |s|
  {
    if s != [] && s[0] <= ' ' then TrimStart(s[1..]) else s
  }

  function TrimEnd(s: string): (r: string)
    ensures |r| <= |s|
  {
    if s != [] && s[|s| - 1] <= ' ' then TrimEnd(s[..|s| - 1]) else s
  }

  function Trim(s: string): string
  {
    TrimEnd(TrimStart(s))
  }

  /** `s.trim().length() == 0`. */
  predicate IsBlank(s: string)
  {
    |Trim(s)| == 0
  }

  lemma {:induction false} TrimStartEmpty(s: string)
    ensures TrimStart(s) == [] <==> forall i :: 0 <= i < |s| ==> s[i] <= ' '
  {
    if s != [] && s[0] <= ' ' {
      TrimStartEmpty(s[1..]);
      assert forall i :: 1 <= i < |s| ==> s[i] == s[1..][i - 1];
    }
  }

  lemma {:induction false} TrimEndEmpty(s: string)
    ensures TrimEnd(s) == [] <==> forall i :: 0 <= i < |s| ==> s[i] <= ' '
  {
    if s != [] && s[|s| - 1] <= ' ' {
      TrimEndEmpty(s[..|s| - 1]);
    }
  }

  /** A string trims to nothing exactly when all its characters are control characters or spaces. */
  lemma {:induction false} BlankIff(s: string)
    ensures IsBlank(s) <==> forall i :: 0 <= i < |s| ==> s[i] <= ' '
  {
    TrimStartEmpty(s);
    TrimEndEmpty(TrimStart(s));
    TrimStartKeepsNonBlank(s);
  }

  lemma {:induction false} TrimStartKeepsNonBlank(s: string)
    ensures TrimStart(s) == [] || TrimStart(s)[0] > ' '
  {
    if s != [] && s[0] <= ' ' {
      TrimStartKeepsNonBlank(s[1..]);
    }
  }

  /** Every piece between separators, empty pieces included: `sep` occurs `|r| - 1` times. */
  function SplitAll(s: string, sep: char): (r: seq<string>)
    ensures |r| >= 1
  {
    if s == [] then [""]
    else
      var rest := SplitAll(s[1..], sep);
      if s[0] == sep then [""] + rest
      else [[s[0]] + rest[0]] + rest[1..]
  }

  function Join(pieces: seq<string>, sep: char): string
    requires |pieces| >= 1
  {
    if |pieces| == 1 then pieces[0] else pieces[0] + [sep] + Join(pieces[1..], sep)
  }

  /** Joining the pieces back with the separator restores the string. */
  lemma {:induction false} JoinSplitAll(s: string, sep: char)
    ensures Join(SplitAll(s, sep), sep) == s
  {
    if s != [] {
      var rest := SplitAll(s[1..], sep);
      JoinSplitAll(s[1..], sep);
      if s[0] == sep {
        assert SplitAll(s, sep)[1..] == rest;
      } else if |rest| == 1 {
        assert s == [s[0]] + s[1..];
      } else {
        assert SplitAll(s, sep)[1..] == rest[1..];
        assert s == [s[0]] + s[1..];
      }
    }
  }

  /** No piece contains the separator. */
  lemma {:induction false} SplitAllPiecesHaveNoSeparator(s: string, sep: char)
    ensures forall i :: 0 <= i < |SplitAll(s, sep)| ==> sep !in SplitAll(s, sep)[i]
  {
    if s != [] {
      SplitAllPiecesHaveNoSeparator(s[1..], sep);
      var rest := SplitAll(s[1..], sep);
      if s[0] != sep {
        assert forall i :: 1 <= i < |SplitAll(s, sep)| ==> SplitAll(s, sep)[i] == rest[i];
      }
    }
  }

  /** A string without the separator is one piece. */
  lemma {:induction false} SplitAllNoSeparator(w: string, sep: char)
    requires sep !in w
    ensures SplitAll(w, sep) == [w]
  {
    if w != [] {
      SplitAllNoSeparator(w[1..], sep);
      assert w == [w[0]] + w[1..];
    }
  }

  /** A leading piece `w` followed by the separator comes off first. */
  lemma {:induction false} SplitAllFirstPiece(w: string, sep: char, rest: string)
    requires sep !in w
    ensures SplitAll(w + [sep] + rest, sep) == [w] + SplitAll(rest, sep)
  {
    var s := w + [sep] + rest;
    if w == [] {
      assert s[1..] == rest;
    } else {
      assert s[1..] == w[1..] + [sep] + rest;
      SplitAllFirstPiece(w[1..], sep, rest);
      assert w == [w[0]] + w[1..];
    }
  }

  function DropTrailingEmpty(pieces: seq<string>): (r: seq<string>)
    ensures |r| <= |pieces| && r == pieces[..|r|]
    ensures r == [] || r[|r| - 1] != ""
    ensures forall i :: |r| <= i < |pieces| ==> pieces[i] == ""
  {
    if pieces == [] then []
    else if pieces[|pieces| - 1] == "" then DropTrailingEmpty(pieces[..|pieces| - 1])
    else pieces
  }

  /** `s.split(String.valueOf(sep))` for a separator that is not a regex metacharacter. */
  function Split(s: string, sep: char): seq<string>
  {
    if sep !in s then [s] else DropTrailingEmpty(SplitAll(s, sep))
  }

  lemma {:induction false} SplitAllHasNonEmptyIff(s: string, sep: char)
    ensures (exists i :: 0 <= i < |SplitAll(s, sep)| && SplitAll(s, sep)[i] != "")
        <==> (exists i :: 0 <= i < |s| && s[i] != sep)
  {
    if s != [] {
      SplitAllHasNonEmptyIff(s[1..], sep);
      var rest := SplitAll(s[1..], sep);
      var all := SplitAll(s, sep);
      if s[0] == sep {
        assert forall i :: 1 <= i < |all| ==> all[i] == rest[i - 1];
        assert forall i :: 1 <= i < |s| ==> s[i] == s[1..][i - 1];
        if exists i :: 0 <= i < |s| && s[i] != sep {
          var i :| 0 <= i < |s| && s[i] != sep;
          assert s[1..][i - 1] != sep;
          var k :| 0 <= k < |rest| && rest[k] != "";
          assert all[k + 1] != "";
        }
      } else {
        assert all[0] != "";
      }
    }
  }

  /**
   * A string of the form `/...` splits into a leading empty piece and at least one
   * more exactly when some character is not a slash; `"//"` splits into nothing.
   */
  lemma SplitHasSegmentIff(s: string)
    requires |s| > 1 && s[0] == '/'
    ensures |Split(s, '/')| >= 2 <==> exists i :: 0 <= i < |s| && s[i] != '/'
    ensures |Split(s, '/')| >= 1 ==> Split(s, '/')[0] == ""
  {
    var all := SplitAll(s, '/');
    assert all == [""] + SplitAll(s[1..], '/');
    SplitAllHasNonEmptyIff(s, '/');
    var r := DropTrailingEmpty(all);
    if exists i :: 0 <= i < |s| && s[i] != '/' {
      var k :| 0 <= k < |all| && all[k] != "";
      assert k < |r|;
    }
  }

  function DigitChar(d: nat): char
    requires d < 10
  {
    ['0', '1', '2', '3', '4', '5', '6', '7', '8', '9'][d]
  }

  /** The decimal digits of `n`, most significant first, as `Integer.toString` writes them. */
  function NatToString(n: nat): (r: string)
    ensures |r| >= 1
    ensures forall i :: 0 <= i < |r| ==> '0' <= r[i] <= '9'
  {
    if n < 10 then [DigitChar(n)] else NatToString(n / 10) + [DigitChar(n % 10)]
  }

  function DigitValue(c: char): nat
    requires '0' <= c <= '9'
  {
    (c as int - '0' as int) as nat
  }

  /** Reads a decimal numeral back. */
  function ParseNat(s: string): nat
    requires forall i :: 0 <= i < |s| ==> '0' <= s[i] <= '9'
  {
    if s == [] then 0 else 10 * ParseNat(s[..|s| - 1]) + DigitValue(s[|s| - 1])
  }

  /** The rendering loses nothing: distinct counters give distinct texts. */
  lemma {:induction false} ParseNatToString(n: nat)
    ensures ParseNat(NatToString(n)) == n
  {
    if n >= 10 {
      ParseNatToString(n / 10);
      var r := NatToString(n);
      assert r[..|r| - 1] == NatToString(n / 10);
    }
  }
}
