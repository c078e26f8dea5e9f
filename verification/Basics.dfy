/** What several modules share. */
module Basics {

  datatype Option<T> = None | Some(value: T)

  /** 2^64: unsigned machine words, and the words of a big integer, are below it. */
  const WORD: nat := 0x1_0000_0000_0000_0000

  lemma SubsetSize(a: set<nat>, b: set<nat>)
    requires a <= b
    ensures |a| <= |b|
  {
    assert b == a + (b - a);
  }

  predicate AtMostOne(ws: set<nat>) {
    forall v, w :: v in ws && w in ws ==> v == w
  }

  lemma AtMostOneIff(ws: set<nat>)
    ensures AtMostOne(ws) <==> |ws| <= 1
  {
    if |ws| > 1 {
      var w :| w in ws;
      assert |ws - {w}| > 0;
      var v :| v in ws - {w};
    } else {
      forall v, w | v in ws && w in ws ensures v == w {
        assert ws == {v, w} + (ws - {v, w});
        assert |{v, w}| <= 1;
      }
    }
  }
}
