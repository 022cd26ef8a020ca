/**
 The output file name of a document: the title with every character that
 is not allowed in a file name replaced by `_`, followed by `.pdf`
 (the `re.sub` call of the export loop).
 */
module Sanitize {

  /** The nine characters of the regular expression class `[/\\:*?"<>|]`. */
  predicate Forbidden(c: char)
  {
    c == '/' || c == '\\' || c == ':' || c == '*' || c == '?'
    || c == '"' || c == '<' || c == '>' || c == '|'
  }

  /** The character a forbidden character becomes. */
  const Replacement: char := '_'

  /** Extension appended after sanitisation. */
  const PdfExtension: string := ".pdf"

  /** True when no character of `s` is forbidden. */
  predicate Clean(s: string)
  {
    forall i :: 0 <= i < |s| ==> !Forbidden(s[i])
  }

  /** The substitution itself: each forbidden character is replaced one for one. */
  function Substitute(s: string): (r: string)
    ensures |r| == |s|
    ensures forall i :: 0 <= i < |s| && Forbidden(s[i]) ==> r[i] == Replacement
    ensures forall i :: 0 <= i < |s| && !Forbidden(s[i]) ==> r[i] == s[i]
    ensures Clean(r)
  {
    if s == [] then []
    else [if Forbidden(s[0]) then Replacement else s[0]] + Substitute(s[1..])
  }

  /** The name of the PDF file written for a document titled `title`. */
  function PdfName(title: string): (r: string)
    ensures |r| == |title| + |PdfExtension|
    ensures r[|title|..] == PdfExtension
    ensures Clean(r[..|title|])
    ensures forall i :: 0 <= i < |title| && !Forbidden(title[i]) ==> r[i] == title[i]
    ensures forall i :: 0 <= i < |title| && Forbidden(title[i]) ==> r[i] == Replacement
  {
    Substitute(title) + PdfExtension
  }

  /** A title is left alone exactly when it is already clean. */
  lemma SubstituteFixpoint(s: string)
    ensures Substitute(s) == s <==> Clean(s)
  {
  }

  /** Sanitising a sanitised title changes nothing. */
  lemma SubstituteIdempotent(s: string)
    ensures Substitute(Substitute(s)) == Substitute(s)
    ensures PdfName(Substitute(s)) == PdfName(s)
  {
  }

  /** A character that ends up as `_` in the file name: a forbidden one or `_` itself. */
  predicate Blank(c: char)
  {
    Forbidden(c) || c == Replacement
  }

  /** Two titles get the same file name exactly when they have the same length
      and, position by position, agree or both hold a character that becomes `_`. */
  lemma PdfNameCollision(a: string, b: string)
    ensures PdfName(a) == PdfName(b)
            <==> |a| == |b| && forall i :: 0 <= i < |a| ==> a[i] == b[i] || (Blank(a[i]) && Blank(b[i]))
  {
  }

  /** Sanitisation is not injective: `A/B`, `A:B` and `A_B` are all written to `A_B.pdf`. */
  lemma PdfNameNotInjective()
    ensures "A/B" != "A:B" && "A/B" != "A_B" && "A:B" != "A_B"
    ensures PdfName("A/B") == PdfName("A:B") == PdfName("A_B") == "A_B.pdf"
  {
  }

  /** Every forbidden character of a longer title is replaced: `A/B:C"D` becomes `A_B_C_D.pdf`. */
  lemma PdfNameExample()
    ensures PdfName("A/B:C\"D") == "A_B_C_D.pdf"
  {
  }
}
