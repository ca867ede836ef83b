/** The two case foldings of the path type. Java's `Character.toUpperCase` and `toLowerCase` tables
    are not part of this model: they are parameters, of which only the treatment of the three
    characters that carry path structure is fixed. */
module CaseFold {

  datatype Folding = Folding(up: char -> char, low: char -> char) {
    /** `String.equalsIgnoreCase` compares characters by this folding; it is coarser than `up`. */
    function Caseless(): char -> char {
      c => low(up(c))
    }
  }

  /** `g` fixes `c` and sends nothing else to it. */
  ghost predicate Isolates(g: char -> char, c: char) {
    g(c) == c && forall d {:trigger g(d)} :: g(d) == c ==> d == c
  }

  ghost predicate KeepsStructure(g: char -> char) {
    Isolates(g, '.') && Isolates(g, '\\') && Isolates(g, ':')
  }

  function AsciiUp(c: char): char {
    if 'a' <= c <= 'z' then (c as int - 32) as char else c
  }

  function AsciiLow(c: char): char {
    if 'A' <= c <= 'Z' then (c as int + 32) as char else c
  }

  type Fold = f: Folding | KeepsStructure(f.up) && KeepsStructure(f.low)
    ghost witness Folding(AsciiUp, AsciiLow)

  lemma CaselessKeepsStructure(f: Fold)
    ensures KeepsStructure(f.Caseless())
  {
  }

  /** Equality of texts up to the folding `g`. */
  predicate Same(g: char -> char, a: string, b: string) {
    |a| == |b| && forall i | 0 <= i < |a| :: g(a[i]) == g(b[i])
  }

  /** Equality of name lists up to the folding `g`. */
  predicate SameNames(g: char -> char, a: seq<string>, b: seq<string>) {
    |a| == |b| && forall i | 0 <= i < |a| :: Same(g, a[i], b[i])
  }

  lemma SameSymmetric(g: char -> char, a: string, b: string)
    requires Same(g, a, b)
    ensures Same(g, b, a)
  {
  }

  lemma SameTransitive(g: char -> char, a: string, b: string, c: string)
    requires Same(g, a, b) && Same(g, b, c)
    ensures Same(g, a, c)
  {
  }

  /** The finer folding implies the coarser one. */
  lemma UpImpliesCaseless(f: Fold, a: string, b: string)
    requires Same(f.up, a, b)
    ensures Same(f.Caseless(), a, b)
  {
  }

  lemma SameConcat(g: char -> char, a: string, b: string, c: string, d: string)
    requires |a| == |b|
    ensures Same(g, a + c, b + d) <==> Same(g, a, b) && Same(g, c, d)
  {
    if Same(g, a + c, b + d) {
      forall i | 0 <= i < |a| ensures g(a[i]) == g(b[i]) {
        assert (a + c)[i] == a[i] && (b + d)[i] == b[i];
      }
      forall i | 0 <= i < |c| ensures g(c[i]) == g(d[i]) {
        assert (a + c)[|a| + i] == c[i] && (b + d)[|a| + i] == d[i];
      }
    }
  }

  /** A text as a hash key that sees the folded characters only. */
  function FoldText(g: char -> char, s: string): string {
    seq(|s|, i requires 0 <= i < |s| => g(s[i]))
  }

  lemma FoldTextIffSame(g: char -> char, a: string, b: string)
    ensures FoldText(g, a) == FoldText(g, b) <==> Same(g, a, b)
  {
    if FoldText(g, a) == FoldText(g, b) {
      assert |FoldText(g, a)| == |FoldText(g, b)|;
      forall i | 0 <= i < |a| ensures g(a[i]) == g(b[i]) {
        assert FoldText(g, a)[i] == FoldText(g, b)[i];
      }
    }
  }
}
