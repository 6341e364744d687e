/**
 * The random attendee-name generator. The random number source is given as
 * the sequence of draws it would produce, each below the alphabet's length.
 */
module RandomNames {
  import opened Optional

  /** The characters a name is drawn from. */
  const Alphabet: string := "0123456789qwertyuiopasdfghjklzxcvbnm"

  /** The length used when the caller gives none. */
  const DefaultSize: int := 8

  /** The alphabet is exactly the ten digits and the 26 lower-case Latin letters. */
  lemma AlphabetIsDigitsAndLowercase()
    ensures |Alphabet| == 36
    ensures forall c :: c in Alphabet <==> ('0' <= c <= '9' || 'a' <= c <= 'z')
  {
    AlphabetChars();
    forall c | '0' <= c <= '9' || 'a' <= c <= 'z' ensures c in Alphabet {
      AlphabetCovers(c);
    }
  }

  lemma AlphabetChars()
    ensures forall i :: 0 <= i < |Alphabet| ==> '0' <= Alphabet[i] <= '9' || 'a' <= Alphabet[i] <= 'z'
  {
  }

  lemma AlphabetCovers(c: char)
    requires '0' <= c <= '9' || 'a' <= c <= 'z'
    ensures c in Alphabet
  {
  }

  /**
   * `getRandomString`: one alphabet character per draw, `size` of them. A
   * negative size makes the string builder's constructor throw, which is
   * modelled as no result.
   */
  method RandomString(size: int, draws: seq<nat>) returns (r: Option<string>)
    requires forall i :: 0 <= i < |draws| ==> draws[i] < |Alphabet|
    requires size <= |draws|
    ensures size < 0 <==> r.None?
    ensures r.Some? ==> |r.value| == size
    ensures r.Some? ==> forall i :: 0 <= i < size ==> r.value[i] == Alphabet[draws[i]]
  {
    if size < 0 {
      return None;
    }
    var sb := "";
    var i := 0;
    while i < size
      invariant 0 <= i <= size
      invariant |sb| == i
      invariant forall k :: 0 <= k < i ==> sb[k] == Alphabet[draws[k]]
    {
      sb := sb + [Alphabet[draws[i]]];
      i := i + 1;
    }
    return Some(sb);
  }

  /** Every character of a generated name is a digit or a lower-case letter; size 0 gives the empty name. */
  method RandomName(size: int, draws: seq<nat>) returns (r: Option<string>)
    requires forall i :: 0 <= i < |draws| ==> draws[i] < |Alphabet|
    requires size <= |draws|
    ensures size >= 0 ==> r.Some? && |r.value| == size
    ensures size == 0 ==> r == Some("")
    ensures r.Some? ==> forall i :: 0 <= i < |r.value| ==> '0' <= r.value[i] <= '9' || 'a' <= r.value[i] <= 'z'
  {
    r := RandomString(size, draws);
    AlphabetIsDigitsAndLowercase();
    if r.Some? {
      forall i | 0 <= i < |r.value| ensures '0' <= r.value[i] <= '9' || 'a' <= r.value[i] <= 'z' {
        assert r.value[i] == Alphabet[draws[i]];
        assert Alphabet[draws[i]] in Alphabet;
      }
    }
  }

  /** The default call: eight characters. */
  method DefaultRandomString(draws: seq<nat>) returns (r: string)
    requires forall i :: 0 <= i < |draws| ==> draws[i] < |Alphabet|
    requires DefaultSize <= |draws|
    ensures |r| == 8
    ensures forall i :: 0 <= i < 8 ==> r[i] == Alphabet[draws[i]]
  {
    var o := RandomString(DefaultSize, draws);
    r := o.value;
  }
}
