/** `_cql_create_upgrader_input_statement_list`: splits a script into statements at a word that
    starts each of them, ignoring the word inside quoted text. */
module Splitter {

  const QUOTE: char := '\''

  /** How many quote characters there are from `start` up to `p`. */
  function Quotes(s: string, start: nat, p: nat): (k: nat)
    requires start <= p <= |s|
    decreases p
  {
    if p == start then 0 else Quotes(s, start, p - 1) + (if s[p - 1] == QUOTE then 1 else 0)
  }

  /** The word is found at `p`. */
  predicate WordAt(s: string, word: string, p: nat)
  {
    p + |word| <= |s| && s[p..p + |word|] == word
  }

  /** A statement starts at `p`: past the start, at the word, after an even number of quotes. */
  predicate IsCut(s: string, word: string, start: nat, p: nat)
    requires start <= p < |s|
  {
    start < p && s[p] != QUOTE && WordAt(s, word, p) && Quotes(s, start, p) % 2 == 0
  }

  /** All the cuts before `p`. */
  function Cuts(s: string, word: string, start: nat, p: nat): (cuts: seq<nat>)
    requires start <= p <= |s|
    ensures forall i :: 0 <= i < |cuts| ==> start < cuts[i] < p
    decreases p
  {
    if p == start then []
    else Cuts(s, word, start, p - 1) + (if IsCut(s, word, start, p - 1) then [p - 1] else [])
  }

  /** Where piece `k` begins. */
  function Begin(start: nat, cuts: seq<nat>, k: nat): (b: nat)
    requires k <= |cuts|
  {
    if k == 0 then start else cuts[k - 1]
  }

  function Piece(s: string, from: nat, to: nat): (piece: string)
    requires from <= to <= |s|
  {
    s[from..to]
  }

  /** The first `k` pieces. */
  function Pieces(s: string, start: nat, cuts: seq<nat>, k: nat): (pieces: seq<string>)
    requires k <= |cuts| && Ascending(s, start, cuts)
    ensures |pieces| == k
  {
    if k == 0 then [] else Pieces(s, start, cuts, k - 1) + [Piece(s, Begin(start, cuts, k - 1), cuts[k - 1])]
  }

  predicate Ascending(s: string, start: nat, cuts: seq<nat>)
  {
    start <= |s| && forall k :: 0 <= k < |cuts| ==> Begin(start, cuts, k) < cuts[k] <= |s|
  }

  function Joined(pieces: seq<string>, n: nat): (s: string)
    requires n <= |pieces|
  {
    if n == 0 then "" else Joined(pieces, n - 1) + pieces[n - 1]
  }

  /** Past the leading spaces. */
  function Start(s: string, i: nat): (start: nat)
    requires i <= |s|
    ensures i <= start <= |s| && (start < |s| ==> s[start] != ' ')
    ensures forall j :: i <= j < start ==> s[j] == ' '
    decreases |s| - i
  {
    if i < |s| && s[i] == ' ' then Start(s, i + 1) else i
  }

  /** The cuts are exactly the places where a statement starts, in order. */
  lemma {:induction false} CutsInOrder(s: string, word: string, start: nat, p: nat)
    requires start <= p <= |s|
    ensures Ascending(s, start, Cuts(s, word, start, p))
    ensures forall q :: start <= q < p ==> (q in Cuts(s, word, start, p) <==> IsCut(s, word, start, q))
    decreases p
  {
    if start < p {
      CutsInOrder(s, word, start, p - 1);
      var before, cuts := Cuts(s, word, start, p - 1), Cuts(s, word, start, p);
      forall k | 0 <= k < |cuts|
        ensures Begin(start, cuts, k) < cuts[k] <= |s|
      {
        if k < |before| {
          assert Begin(start, cuts, k) == Begin(start, before, k);
        } else if k > 0 {
          assert cuts[k - 1] == before[k - 1];
        }
      }
      forall q | start <= q < p
        ensures q in cuts <==> IsCut(s, word, start, q)
      {
        assert q in cuts <==> q in before || (q == p - 1 && IsCut(s, word, start, p - 1));
      }
    }
  }

  /** The single quotes from `start` up to `p`. */
  function QuotePlaces(s: string, start: nat, p: nat): (ps: set<nat>)
    requires p <= |s|
  {
    set k: nat | start <= k < p && s[k] == '\''
  }

  lemma {:induction false} QuotesAre(s: string, start: nat, p: nat)
    requires start <= p <= |s|
    ensures Quotes(s, start, p) == |QuotePlaces(s, start, p)|
    decreases p
  {
    if start < p {
      QuotesAre(s, start, p - 1);
      assert QuotePlaces(s, start, p) == QuotePlaces(s, start, p - 1) + (if s[p - 1] == '\'' then {p - 1} else {});
    } else {
      assert QuotePlaces(s, start, p) == {};
    }
  }

  /** The cuts are exactly the places past the start where the word stands, not at a quote, after an
      even number of single quotes. */
  lemma {:induction false} CutsComplete(s: string, word: string, start: nat, p: nat)
    requires start <= p <= |s|
    ensures forall q :: start <= q < p ==>
              (q in Cuts(s, word, start, p) <==>
               && start < q && s[q] != '\'' && q + |word| <= |s| && s[q..q + |word|] == word
               && |QuotePlaces(s, start, q)| % 2 == 0)
  {
    hide Cuts, Quotes, QuotePlaces;
    CutsInOrder(s, word, start, p);
    forall q | start <= q < p
      ensures Quotes(s, start, q) == |QuotePlaces(s, start, q)|
    {
      QuotesAre(s, start, q);
    }
  }

  lemma {:induction false} PiecesPrefix(s: string, start: nat, cuts: seq<nat>, more: seq<nat>, k: nat)
    requires k <= |cuts| <= |more| && Ascending(s, start, cuts) && Ascending(s, start, more)
    requires forall i :: 0 <= i < |cuts| ==> more[i] == cuts[i]
    ensures Pieces(s, start, more, k) == Pieces(s, start, cuts, k)
  {
    hide Piece;
    if k > 0 {
      PiecesPrefix(s, start, cuts, more, k - 1);
    }
  }

  function LastBegin(s: string, start: nat, cuts: seq<nat>): (b: nat)
    requires Ascending(s, start, cuts)
    ensures b <= |s| && b == Begin(start, cuts, |cuts|)
  {
    if |cuts| == 0 then start else cuts[|cuts| - 1]
  }

  /** The statements: the pieces between cuts and what follows the last cut. */
  function Split(s: string, word: string): (pieces: seq<string>)
  {
    if |s| == 0 then []
    else
      var start := Start(s, 0);
      var cuts := Cuts(s, word, start, |s|);
      CutsInOrder(s, word, start, |s|);
      Pieces(s, start, cuts, |cuts|) + [Piece(s, LastBegin(s, start, cuts), |s|)]
  }

  lemma {:induction false} AscendingAt(s: string, start: nat, cuts: seq<nat>, k: nat)
    requires k <= |cuts| && Ascending(s, start, cuts)
    ensures start <= |s| && (0 < k ==> Begin(start, cuts, k - 1) < cuts[k - 1] <= |s|)
    ensures k < |cuts| ==> Begin(start, cuts, k) < cuts[k] <= |s|
  {
  }

  lemma {:induction false} JoinedPieces(s: string, start: nat, cuts: seq<nat>, k: nat)
    requires k <= |cuts| && Ascending(s, start, cuts)
    ensures start <= Begin(start, cuts, k) <= |s|
    ensures Joined(Pieces(s, start, cuts, k), k) == Piece(s, start, Begin(start, cuts, k))
  {
    hide Joined, Piece, Ascending;
    AscendingAt(s, start, cuts, k);
    JoinedNone(Pieces(s, start, cuts, 0));
    if k == 0 {
      PieceEmpty(s, start);
    } else {
      JoinedPieces(s, start, cuts, k - 1);
      var before, now := Pieces(s, start, cuts, k - 1), Pieces(s, start, cuts, k);
      JoinedPrefix(before, now, k - 1);
      JoinedLast(now);
      PieceJoin(s, start, Begin(start, cuts, k - 1), cuts[k - 1]);
    }
  }

  lemma {:induction false} PieceEmpty(s: string, a: nat)
    requires a <= |s|
    ensures Piece(s, a, a) == ""
  {
  }

  lemma {:induction false} PieceJoin(s: string, a: nat, b: nat, c: nat)
    requires a <= b <= c <= |s|
    ensures Piece(s, a, b) + Piece(s, b, c) == Piece(s, a, c)
  {
  }

  lemma {:induction false} JoinedNone(pieces: seq<string>)
    ensures Joined(pieces, 0) == ""
  {
  }

  lemma {:induction false} JoinedLast(pieces: seq<string>)
    requires |pieces| > 0
    ensures Joined(pieces, |pieces|) == Joined(pieces, |pieces| - 1) + pieces[|pieces| - 1]
  {
  }

  lemma {:induction false} JoinedPrefix(a: seq<string>, b: seq<string>, n: nat)
    requires n <= |a| && n <= |b| && forall i :: 0 <= i < n ==> a[i] == b[i]
    ensures Joined(a, n) == Joined(b, n)
  {
    if n > 0 {
      JoinedPrefix(a, b, n - 1);
    }
  }

  /** The pieces, put together again, are the input without its leading spaces. */
  lemma {:induction false} SplitLosesNothing(s: string, word: string)
    ensures Joined(Split(s, word), |Split(s, word)|) == s[Start(s, 0)..]
  {
    hide Cuts, Pieces, Joined, Ascending, Start, Piece;
    if |s| > 0 {
      var start := Start(s, 0);
      var cuts := Cuts(s, word, start, |s|);
      CutsInOrder(s, word, start, |s|);
      var all, b := Split(s, word), LastBegin(s, start, cuts);
      JoinedPieces(s, start, cuts, |cuts|);
      JoinedPrefix(Pieces(s, start, cuts, |cuts|), all, |cuts|);
      JoinedLast(all);
      PieceJoin(s, start, b, |s|);
      PieceToEnd(s, start);
    } else {
      JoinedNone([]);
    }
  }

  lemma {:induction false} PieceToEnd(s: string, a: nat)
    requires a <= |s|
    ensures Piece(s, a, |s|) == s[a..]
  {
  }

  lemma {:induction false} PieceAt(s: string, start: nat, cuts: seq<nat>, k: nat, i: nat)
    requires i < k <= |cuts| && Ascending(s, start, cuts)
    ensures Begin(start, cuts, i) < cuts[i] && Pieces(s, start, cuts, k)[i] == Piece(s, Begin(start, cuts, i), cuts[i])
  {
    hide Piece, Ascending;
    AscendingAt(s, start, cuts, i);
    if i < k - 1 {
      PieceAt(s, start, cuts, k - 1, i);
    }
  }

  /** Every statement but the first starts at a cut, and the next one where it ends. */
  lemma {:induction false} StatementsStartAtCuts(s: string, word: string, start: nat, cuts: seq<nat>, i: nat)
    requires start == Start(s, 0) && cuts == Cuts(s, word, start, |s|) && 0 < i <= |cuts|
    ensures IsCut(s, word, start, cuts[i - 1]) && |Split(s, word)| == |cuts| + 1
    ensures cuts[i - 1] <= (if i < |cuts| then cuts[i] else |s|)
    ensures Split(s, word)[i] == Piece(s, cuts[i - 1], if i < |cuts| then cuts[i] else |s|)
  {
    hide Cuts, Pieces, IsCut, Piece, Start, Ascending;
    CutsInOrder(s, word, start, |s|);
    AscendingAt(s, start, cuts, i);
    assert cuts[i - 1] in cuts;
    if i < |cuts| {
      PieceAt(s, start, cuts, |cuts|, i);
    }
  }

  lemma {:induction false} QuoteStep(s: string, start: nat, p: nat)
    requires start <= p < |s|
    ensures Quotes(s, start, p + 1) == Quotes(s, start, p) + (if s[p] == QUOTE then 1 else 0)
  {
  }

  lemma {:induction false} CutStep(s: string, word: string, start: nat, p: nat)
    requires start <= p < |s|
    ensures Cuts(s, word, start, p + 1) == if IsCut(s, word, start, p) then Cuts(s, word, start, p) + [p] else Cuts(s, word, start, p)
  {
  }

  lemma {:induction false} AscendingPush(s: string, start: nat, cuts: seq<nat>, p: nat)
    requires Ascending(s, start, cuts) && Begin(start, cuts, |cuts|) < p <= |s|
    ensures Ascending(s, start, cuts + [p])
  {
    hide Ascending;
    var more := cuts + [p];
    AscendingAt(s, start, cuts, 0);
    forall k | 0 <= k < |more|
      ensures Begin(start, more, k) < more[k] <= |s|
    {
      if k > 0 {
        assert more[k - 1] == cuts[k - 1];
      }
      if k < |cuts| {
        assert more[k] == cuts[k];
        AscendingAt(s, start, cuts, k);
      }
    }
    AscendingBy(s, start, more);
  }

  lemma {:induction false} AscendingBy(s: string, start: nat, cuts: seq<nat>)
    requires start <= |s| && forall k :: 0 <= k < |cuts| ==> Begin(start, cuts, k) < cuts[k] <= |s|
    ensures Ascending(s, start, cuts)
  {
  }

  lemma {:induction false} PieceStep(s: string, start: nat, cuts: seq<nat>, p: nat)
    requires Ascending(s, start, cuts) && Begin(start, cuts, |cuts|) < p <= |s|
    ensures Ascending(s, start, cuts + [p])
    ensures Pieces(s, start, cuts + [p], |cuts| + 1) == Pieces(s, start, cuts, |cuts|) + [Piece(s, Begin(start, cuts, |cuts|), p)]
  {
    hide Piece, Ascending;
    AscendingPush(s, start, cuts, p);
    PiecesPrefix(s, start, cuts, cuts + [p], |cuts|);
  }

  lemma {:induction false} NothingYet(s: string, word: string, start: nat)
    requires start <= |s|
    ensures Quotes(s, start, start) == 0 && Cuts(s, word, start, start) == [] && Ascending(s, start, [])
    ensures Pieces(s, start, [], 0) == []
  {
  }

  /** The scanner: its quote state agrees with plain quote parity wherever it looks for the word. */
  method SplitStatements(s: string, word: string) returns (pieces: seq<string>)
    ensures pieces == Split(s, word)
  {
    hide Quotes, Cuts, Pieces, Ascending, WordAt, Piece;
    pieces := [];
    if |s| == 0 {
      return;
    }
    var line := 0;
    while line < |s| && s[line] == ' '
      invariant 0 <= line <= |s| && Start(s, 0) == Start(s, line)
    {
      line := line + 1;
    }
    ghost var start := line;
    ghost var cuts: seq<nat> := [];
    NothingYet(s, word, start);
    var inQuote := false;
    var p := line;
    while p < |s|
      invariant start <= p <= |s| && cuts == Cuts(s, word, start, p) && Ascending(s, start, cuts)
      invariant line == Begin(start, cuts, |cuts|) && pieces == Pieces(s, start, cuts, |cuts|)
      invariant inQuote == (Quotes(s, start, p) % 2 == 1)
    {
      CutStep(s, word, start, p);
      QuoteStep(s, start, p);
      if inQuote {
        if s[p] == QUOTE {
          if p + 1 < |s| && s[p + 1] == QUOTE {
            QuoteStep(s, start, p + 1);
            CutStep(s, word, start, p + 1);
            p := p + 1;
          } else {
            inQuote := false;
          }
        }
      } else if s[p] == QUOTE {
        inQuote := true;
      } else if WordAt(s, word, p) {
        BeginsBefore(s, word, start, p);
        if line != p {
          PieceStep(s, start, cuts, p);
          pieces := pieces + [Piece(s, line, p)];
          cuts := cuts + [p];
          line := p;
        }
      }
      p := p + 1;
    }
    pieces := pieces + [Piece(s, line, |s|)];
  }

  /** A line starts at `p` only where scanning began. */
  lemma {:induction false} BeginsBefore(s: string, word: string, start: nat, p: nat)
    requires start <= p <= |s|
    ensures var cuts := Cuts(s, word, start, p);
            Begin(start, cuts, |cuts|) <= p && (Begin(start, cuts, |cuts|) == p <==> p == start)
  {
  }
}
