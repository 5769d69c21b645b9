/** Where one text stands in another. */
module Text {

  /** `text` stands in the buffer at position k. */
  predicate At(data: string, k: nat, text: string) {
    k + |text| <= |data| && data[k..k + |text|] == text
  }

  lemma AtSplit(data: string, k: nat, a: string, b: string)
    requires At(data, k, a + b)
    ensures At(data, k, a) && At(data, k + |a|, b) && k + |a| + |b| <= |data|
  {
    var ab := data[k..k + |a + b|];
    assert data[k..k + |a|] == ab[..|a|] == a;
    assert data[k + |a|..k + |a| + |b|] == ab[|a|..] == b;
  }

  lemma AtHead(data: string, k: nat, text: string)
    requires At(data, k, text) && text != []
    ensures k < |data| && data[k] == text[0]
  {
    assert data[k] == data[k..k + |text|][0];
  }

  lemma Assoc<T>(a: seq<T>, b: seq<T>, c: seq<T>)
    ensures (a + b) + c == a + (b + c)
  {
  }
}
