/** The book record (`Knjiga`): an immutable id, title and author, ordered by
    author and then by title. */
module Books {
  import JavaText

  /** A book. The constructor and the getters `getId`, `getNaslov`,
      `getAutor` are the datatype constructor and its destructors. */
  datatype Book = Book(id: int, title: string, author: string) {

    /** Natural order: by author; for the same author, by title. */
    function CompareTo(that: Book): int {
      var r := JavaText.CompareTo(author, that.author);
      if r == 0 then JavaText.CompareTo(title, that.title) else r
    }

    /** Text form: id, a space, the author, a colon and a space, the title. */
    function ToString(): string {
      JavaText.IntToString(id) + " " + author + ": " + title
    }
  }

  /** The author decides unless the authors are equal; then the title does. */
  lemma CompareToAuthorThenTitle(a: Book, b: Book)
    ensures a.author != b.author ==>
      a.CompareTo(b) == JavaText.CompareTo(a.author, b.author) != 0
    ensures a.author == b.author ==>
      a.CompareTo(b) == JavaText.CompareTo(a.title, b.title)
  {
    JavaText.CompareToZeroIffEqual(a.author, b.author);
  }

  /** Two books are equal under the natural order exactly when they have the
      same author and the same title, whatever their ids. */
  lemma CompareToZeroIff(a: Book, b: Book)
    ensures a.CompareTo(b) == 0 <==> a.author == b.author && a.title == b.title
  {
    JavaText.CompareToZeroIffEqual(a.author, b.author);
    JavaText.CompareToZeroIffEqual(a.title, b.title);
  }

  lemma CompareToAntisymmetric(a: Book, b: Book)
    ensures a.CompareTo(b) == -b.CompareTo(a)
  {
    JavaText.CompareToAntisymmetric(a.author, b.author);
    JavaText.CompareToAntisymmetric(a.title, b.title);
  }

  lemma CompareToTransitive(a: Book, b: Book, c: Book)
    requires a.CompareTo(b) <= 0 && b.CompareTo(c) <= 0
    ensures a.CompareTo(c) <= 0
  {
    JavaText.CompareToZeroIffEqual(a.author, b.author);
    JavaText.CompareToZeroIffEqual(b.author, c.author);
    JavaText.CompareToZeroIffEqual(a.author, c.author);
    if a.author == b.author && b.author == c.author {
      JavaText.CompareToTransitive(a.title, b.title, c.title);
    } else {
      // a's author is below c's: were they equal, antisymmetry would force
      // b's author to be the same as well
      JavaText.CompareToTransitive(a.author, b.author, c.author);
      JavaText.CompareToAntisymmetric(a.author, b.author);
    }
  }

  /** The text form starts with the id in decimal, which is followed by the
      first space and can be read back, and it ends with the title. */
  lemma ToStringLayout(b: Book)
    ensures var t, k := b.ToString(), |JavaText.IntToString(b.id)|;
      && k < |t| && t[k] == ' ' && ' ' !in t[..k]
      && t[..k] == JavaText.IntToString(b.id)
      && JavaText.ParseInt(t[..k]) == b.id
      && |b.title| <= |t| && t[|t| - |b.title|..] == b.title
  {
    JavaText.IntToStringParses(b.id);
    var t, k := b.ToString(), |JavaText.IntToString(b.id)|;
    assert t[..k] == JavaText.IntToString(b.id);
  }
}
