/** Values shared by every module of the model: the optional value that stands
    for a C pointer which may be NULL, the NULL node handle of the linked
    containers, and the byte length `strlen` gives a string. */
module Common {

  /** `None` is a NULL pointer; `Some(v)` a pointer to `v`. */
  datatype Option<T> = None | Some(value: T)

  /** The handle of "no node" in the node arenas of the containers. */
  const Null: int := -1

  /** The number of bytes UTF-8 spends on one character. */
  function CharBytes(c: char): (n: nat)
    ensures 1 <= n <= 4
    ensures n == 1 <==> c < 0x80 as char
  {
    if c < 0x80 as char then 1
    else if c < 0x800 as char then 2
    else if c < 0x1_0000 as char then 3
    else 4
  }

  /** What `strlen` counts on the UTF-8 text of `s`: its bytes, from one
      to four per character and exactly one per ASCII character. */
  function Utf8Length(s: string): (n: nat)
    ensures |s| <= n <= 4 * |s|
    ensures n == |s| <==> forall i | 0 <= i < |s| :: s[i] < 0x80 as char
  {
    if |s| == 0 then 0
    else CharBytes(s[0]) + Utf8Length(s[1..])
  }

  /** The byte count of a concatenation is the sum of the parts'. */
  lemma {:induction false} Utf8LengthAppend(s: string, t: string)
    ensures Utf8Length(s + t) == Utf8Length(s) + Utf8Length(t)
  {
    if |s| == 0 {
      assert s + t == t;
    } else {
      assert (s + t)[0] == s[0] && (s + t)[1..] == s[1..] + t;
      Utf8LengthAppend(s[1..], t);
    }
  }

  /** Accented letters take two bytes each: "ação" is four characters and
      six bytes. */
  lemma Utf8LengthExample()
    ensures Utf8Length("ação") == 6 && |"ação"| == 4
  {
  }
}
