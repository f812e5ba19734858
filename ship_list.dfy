/**
 * The ids of the ship list (game.js line 100): `ship-` followed by the slug
 * of the ship's name. The ship that sinks is found again by that id at
 * line 182, so the five roster names must give five different slugs.
 */
module ShipList {
  import Slug
  import opened Fleet

  /** The slugs of the roster names, from which the list ids `ship-<slug>` are built (line 100). */
  function RosterSlug(i: nat): string
    requires i < NumShips
  {
    ["Yamato", "USS-Arizona", "HMS-Hood", "Bismarck", "HMS-Prince-of-Wales"][i]
  }

  lemma RosterSlugs(i: nat)
    requires i < NumShips
    ensures Slug.Slugify(RosterNames[i]) == RosterSlug(i)
  {
    if i == 0 {
      Slug.LettersNoSpace("Yamato");
      Slug.SlugifyIdentity("Yamato");
    } else if i == 1 {
      SlugArizona();
    } else if i == 2 {
      SlugHood();
    } else if i == 3 {
      Slug.LettersNoSpace("Bismarck");
      Slug.SlugifyIdentity("Bismarck");
    } else {
      SlugPrinceOfWales();
    }
  }

  lemma SlugArizona()
    ensures Slug.Slugify("USS Arizona") == "USS-Arizona"
  {
    Slug.LettersNoSpace("USS");
    Slug.LettersNoSpace("Arizona");
    SlugOfTwo("USS", "Arizona", "USS Arizona", "USS-Arizona");
  }

  lemma SlugHood()
    ensures Slug.Slugify("HMS Hood") == "HMS-Hood"
  {
    Slug.LettersNoSpace("HMS");
    Slug.LettersNoSpace("Hood");
    SlugOfTwo("HMS", "Hood", "HMS Hood", "HMS-Hood");
  }

  lemma SlugPrinceOfWales()
    ensures Slug.Slugify("HMS Prince of Wales") == "HMS-Prince-of-Wales"
  {
    Slug.LettersNoSpace("HMS");
    Slug.LettersNoSpace("Prince");
    Slug.LettersNoSpace("of");
    Slug.LettersNoSpace("Wales");
    assert "HMS Prince of Wales" == "HMS" + " " + "Prince" + " " + "of" + " " + "Wales";
    assert "HMS-Prince-of-Wales" == "HMS" + "-" + "Prince" + "-" + "of" + "-" + "Wales";
    SlugOfFour("HMS", "Prince", "of", "Wales", "HMS Prince of Wales", "HMS-Prince-of-Wales");
  }

  /** Different ships get different list ids. */
  lemma RosterSlugsDistinct(i: nat, j: nat)
    requires i < j < NumShips
    ensures Slug.Slugify(RosterNames[i]) != Slug.Slugify(RosterNames[j])
  {
    RosterSlugs(i);
    RosterSlugs(j);
    SlugsDiffer(i, j);
  }

  /** The five slugs differ in length, except `HMS-Hood` and `Bismarck`, which differ in their first letter. */
  lemma SlugsDiffer(i: nat, j: nat)
    requires i < j < NumShips
    ensures RosterSlug(i) != RosterSlug(j)
  {
    assert |RosterSlug(0)| == 6 && |RosterSlug(1)| == 11 && |RosterSlug(2)| == 8;
    assert |RosterSlug(3)| == 8 && |RosterSlug(4)| == 19;
    assert RosterSlug(2)[0] != RosterSlug(3)[0];
  }

  /** Two words joined by a space, with the strings passed in whole. */
  lemma SlugOfTwo(a: string, b: string, spaced: string, dashed: string)
    requires a != [] && b != [] && Slug.NoSpace(a) && Slug.NoSpace(b)
    requires spaced == a + " " + b && dashed == a + "-" + b
    ensures Slug.Slugify(spaced) == dashed
  {
    SlugTwoWords(a, b);
  }

  lemma SlugOfFour(a: string, b: string, c: string, d: string, spaced: string, dashed: string)
    requires a != [] && b != [] && c != [] && d != []
    requires Slug.NoSpace(a) && Slug.NoSpace(b) && Slug.NoSpace(c) && Slug.NoSpace(d)
    requires spaced == a + " " + b + " " + c + " " + d
    requires dashed == a + "-" + b + "-" + c + "-" + d
    ensures Slug.Slugify(spaced) == dashed
  {
    var cd := c + " " + d;
    var bcd := b + " " + cd;
    SlugTwoWords(c, d);
    SlugTwoWordsJoin(cd, b);
    SlugTwoWordsJoin(bcd, a);
    Regroup(a, " ", b, c, d);
    Regroup(a, "-", b, c, d);
  }

  /** Four words joined by one separator, grouped from the right. */
  lemma Regroup(a: string, sep: string, b: string, c: string, d: string)
    ensures a + sep + b + sep + c + sep + d == a + sep + (b + sep + (c + sep + d))
  {
  }

  /** `Slugify(a + " " + b)` for two words without whitespace. */
  lemma SlugTwoWords(a: string, b: string)
    requires a != [] && b != [] && Slug.NoSpace(a) && Slug.NoSpace(b)
    ensures Slug.Slugify(a + " " + b) == a + "-" + b
  {
    SlugSpaceWord(b);
    SlugWordThen(a, " " + b, "-" + b);
    assert a + " " + b == a + (" " + b);
    assert a + "-" + b == a + ("-" + b);
  }

  /** One more leading word: `Slugify(w + " " + t)` when `t` starts with a word. */
  lemma SlugTwoWordsJoin(t: string, w: string)
    requires w != [] && Slug.NoSpace(w) && t != [] && !Slug.IsSpace(t[0])
    ensures Slug.Slugify(w + " " + t) == w + "-" + Slug.Slugify(t)
  {
    SlugSpaceThen(t);
    SlugWordThen(w, " " + t, "-" + Slug.Slugify(t));
    assert w + " " + t == w + (" " + t);
    assert w + "-" + Slug.Slugify(t) == w + ("-" + Slug.Slugify(t));
  }

  lemma SlugSpaceThen(t: string)
    requires t != [] && !Slug.IsSpace(t[0])
    ensures Slug.Slugify(" " + t) == "-" + Slug.Slugify(t)
  {
    assert Slug.IsSpace(' ');
    Slug.SlugifyRun(" ", t);
  }

  lemma SlugSpaceWord(b: string)
    requires b != [] && Slug.NoSpace(b)
    ensures Slug.Slugify(" " + b) == "-" + b
  {
    SlugSpaceThen(b);
    Slug.SlugifyIdentity(b);
  }

  lemma SlugWordThen(w: string, t: string, st: string)
    requires w != [] && Slug.NoSpace(w) && Slug.Slugify(t) == st
    ensures Slug.Slugify(w + t) == w + st
  {
    Slug.SlugifyIdentity(w);
    Slug.SlugifyConcat(w, t);
  }
}
