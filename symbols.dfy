/** Interned identifiers.

    The interner maps every identifier text to exactly one handle and back
    (`get_or_intern` is idempotent and `resolve` inverts it), so a handle is
    determined by its text. This model therefore takes the text itself as the
    handle: two symbols are equal exactly when their texts are. */
module Symbols {

  type Symbol = string

  /** The marker appended to a variable's name to form the key of its
      capture slots; it starts with a character no source identifier has. */
  const ClosedSuffix: string := "@closed"

  /** The character that source identifiers never contain. */
  const Reserved: char := '@'

  /** A symbol the front end can produce from source text. */
  predicate IsSourceName(s: Symbol) {
    Reserved !in s
  }

  /** The synthesised symbol under which every frame between a variable's
      origin and the referencing function keys its capture slot. */
  function Captured(s: Symbol): (c: Symbol)
    ensures !IsSourceName(c)
    ensures c != s
  {
    var c := s + ClosedSuffix;
    assert c[|s|] == Reserved;
    assert |c| == |s| + |ClosedSuffix|;
    c
  }

  /** Different variables get different capture keys, so two capture
      chains never share a slot. */
  lemma CapturedInjective(s: Symbol, t: Symbol)
    requires Captured(s) == Captured(t)
    ensures s == t
  {
    assert |s| == |t|;
    assert s == Captured(s)[..|s|];
    assert t == Captured(t)[..|t|];
  }
}
