/**
 * The fixed key table of a phone keypad: every lower-case letter sits on
 * exactly one of the keys 2..9 (abc=2, def=3, ghi=4, jkl=5, mno=6,
 * pqrs=7, tuv=8, wxyz=9).  The trie is keyed by these digits, so several
 * words share one digit path.
 */
module KeyCodec {

  /** The letters the table knows: lower-case `a` to `z`. */
  predicate IsLetter(c: char) {
    'a' <= c <= 'z'
  }

  /** A word every letter of which is in the table. */
  predicate IsWord(w: string) {
    forall i :: 0 <= i < |w| ==> IsLetter(w[i])
  }

  /** One of the eight letter keys. */
  predicate IsDigitKey(d: int) {
    2 <= d <= 9
  }

  /** The key that carries letter `c` (the `lettersToDigits` table). */
  function DigitOf(c: char): (d: int)
    requires IsLetter(c)
    ensures IsDigitKey(d)
  {
    match c
    case 'a' | 'b' | 'c' => 2
    case 'd' | 'e' | 'f' => 3
    case 'g' | 'h' | 'i' => 4
    case 'j' | 'k' | 'l' => 5
    case 'm' | 'n' | 'o' => 6
    case 'p' | 'q' | 'r' | 's' => 7
    case 't' | 'u' | 'v' => 8
    case _ => 9
  }

  /** The letters printed on key `d`, in keypad order; no letters on other keys. */
  function LettersOf(d: int): (s: string)
    ensures |s| <= 4
  {
    match d
    case 2 => "abc"
    case 3 => "def"
    case 4 => "ghi"
    case 5 => "jkl"
    case 6 => "mno"
    case 7 => "pqrs"
    case 8 => "tuv"
    case 9 => "wxyz"
    case _ => ""
  }

  /** The two tables are inverse: a letter is on key `d` exactly when `DigitOf` sends it to `d`. */
  lemma LettersOfIsInverse(d: int, c: char)
    ensures c in LettersOf(d) <==> IsLetter(c) && DigitOf(c) == d
  {
  }

  /** The digit path of a word: one key per letter, in order. */
  function Encode(w: string): (ks: seq<int>)
    requires IsWord(w)
    ensures |ks| == |w|
    ensures forall i :: 0 <= i < |ks| ==> IsDigitKey(ks[i])
  {
    if w == [] then [] else [DigitOf(w[0])] + Encode(w[1..])
  }

  /** Letter `i` of a word is encoded at position `i` of its path. */
  lemma {:induction false} EncodeAt(w: string, i: nat)
    requires IsWord(w) && i < |w|
    ensures Encode(w)[i] == DigitOf(w[i])
  {
    if i > 0 {
      EncodeAt(w[1..], i - 1);
    }
  }

  /** Encoding commutes with taking a prefix. */
  lemma {:induction false} EncodePrefix(w: string, n: nat)
    requires IsWord(w) && n <= |w|
    ensures IsWord(w[..n]) && Encode(w[..n]) == Encode(w)[..n]
  {
    if n > 0 {
      assert w[..n][1..] == w[1..][..n - 1];
      EncodePrefix(w[1..], n - 1);
    }
  }
}
