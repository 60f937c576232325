/** File names in the uploads directory: the temporary name multer gives a
    staged cover, the id-derived final name, and which book a name belongs to. */
module Uploads {
  import opened Decimal

  const TempPrefix: string := "temp_"
  const FinalPrefix: string := "book_"

  /** One uploaded cover as the create handler sees it: `stamp` is the rendered
      clock reading multer puts in the temporary name, `ext` is the extension
      `path.extname` takes from the client's file name. */
  datatype Upload = Upload(stamp: string, ext: string)

  /** What `path.extname` can return: nothing, or a suffix starting with a dot. */
  predicate IsExtName(ext: string) {
    ext == [] || ext[0] == '.'
  }

  function TempName(u: Upload): string {
    TempPrefix + u.stamp + u.ext
  }

  function FinalName(id: nat, ext: string): string {
    FinalPrefix + NatToString(id) + ext
  }

  /** `name` is a final cover name for book `id`: the prefix, the id's numeral,
      then an extension. */
  predicate OwnedBy(name: string, id: int) {
    && id >= 0
    && var p := FinalPrefix + NatToString(id);
    && |p| <= |name|
    && name[..|p|] == p
    && IsExtName(name[|p|..])
  }

  /** A final name built from an extension belongs to its book. */
  lemma FinalNameOwned(id: nat, ext: string)
    requires IsExtName(ext)
    ensures OwnedBy(FinalName(id, ext), id)
  {
  }

  /** A file name belongs to at most one book, so the final names of two
      different books never collide. */
  lemma OwnerUnique(name: string, a: int, b: int)
    requires OwnedBy(name, a) && OwnedBy(name, b)
    ensures a == b
  {
    if |NatToString(a)| <= |NatToString(b)| {
      SameNumeral(name, a, b);
    } else {
      SameNumeral(name, b, a);
    }
    NatToStringInjective(a, b);
  }

  lemma SameNumeral(name: string, a: int, b: int)
    requires OwnedBy(name, a) && OwnedBy(name, b)
    requires |NatToString(a)| <= |NatToString(b)|
    ensures NatToString(a) == NatToString(b)
  {
    var da, db := NatToString(a), NatToString(b);
    var pa, pb := FinalPrefix + da, FinalPrefix + db;
    var k := |pa|;
    if k < |pb| {
      // the character after a's numeral is a digit of b's numeral, yet a's
      // extension starts right there and must be empty or begin with a dot
      assert false;
    }
    assert pa == name[..k] == pb;
    assert da == pa[|FinalPrefix|..];
    assert db == pb[|FinalPrefix|..];
  }

  /** A staged temporary file is never taken for a book's cover. */
  lemma TempNameNotOwned(u: Upload, name: string, id: int)
    requires OwnedBy(name, id)
    ensures name != TempName(u)
  {
    assert name[0] == FinalPrefix[0];
    assert TempName(u)[0] == TempPrefix[0];
  }
}
