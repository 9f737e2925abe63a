/**
 * The image-grid shuffle puzzle: a grid of distinct image names drawn from a
 * fixed pool of eight, a set of selected images, and a Shuffle button that
 * replaces every selected image with one not currently shown.
 */
module ImageGrid {
  import opened Basics

  /** The pool of image names `GridState.images`. */
  const Images: seq<string> := ["a", "b", "c", "d", "e", "f", "g", "h"]

  lemma ImagesDistinct()
    ensures Distinct(Images)
  {
  }

  /** What `GridState` keeps true of its grid: no image twice, every image from the pool. */
  predicate WellFormed(g: seq<string>) {
    Distinct(g) && forall i :: 0 <= i < |g| ==> g[i] in Images
  }

  /** `Array.firstIndex(of:)`. */
  function FirstIndex(s: seq<string>, x: string): (r: Option<nat>)
    ensures r.None? <==> x !in s
    ensures r.Some? ==> r.value < |s| && s[r.value] == x && x !in s[..r.value]
  {
    if s == [] then None
    else if s[0] == x then Some(0)
    else match FirstIndex(s[1..], x)
      case None => None
      case Some(i) =>
        assert s[..i + 1] == [s[0]] + s[1..][..i];
        Some(i + 1)
  }

  /**
   * One call of `replaceImage(x)` may turn grid `g` into grid `g2`: if `x` is
   * not shown nothing changes; otherwise only the first cell holding `x` is
   * rewritten, with an image from the pool that `g` does not show.
   */
  predicate Replaced(g: seq<string>, x: string, g2: seq<string>)
    ensures Replaced(g, x, g2) ==> |g2| == |g|
    ensures x !in g ==> (Replaced(g, x, g2) <==> g2 == g)
  {
    match FirstIndex(g, x)
    case None => g2 == g
    case Some(i) =>
      && |g2| == |g|
      && g2[i] in Images && g2[i] !in g
      && forall j :: 0 <= j < |g| && j != i ==> g2[j] == g[j]
  }

  /** `selected` after a tap on `x`: removed if it was there, inserted otherwise. */
  function Toggled(s: set<string>, x: string): (r: set<string>)
    ensures x in r <==> x !in s
    ensures forall y :: y != x ==> (y in r <==> y in s)
  {
    if x in s then s - {x} else s + {x}
  }

  /** Two taps on the same image leave the selection as it was. */
  lemma ToggleTwice(s: set<string>, x: string)
    ensures Toggled(Toggled(s, x), x) == s
  {
  }

  /**
   * `replaceImage` applied to each image of `order` in turn, the last one
   * last, takes grid `g` to grid `g2` (the Shuffle button's loop).
   */
  ghost predicate ReplacedAll(g: seq<string>, order: seq<string>, g2: seq<string>)
    ensures ReplacedAll(g, order, g2) ==> |g2| == |g|
    decreases |order|
  {
    if order == [] then g2 == g
    else exists mid :: ReplacedAll(g, DropLast(order), mid) && Replaced(mid, Last(order), g2)
  }

  /** One more replacement extends a chain of replacements. */
  lemma ReplacedAllSnoc(g: seq<string>, order: seq<string>, mid: seq<string>, x: string, g2: seq<string>)
    requires ReplacedAll(g, order, mid) && Replaced(mid, x, g2)
    ensures ReplacedAll(g, order + [x], g2)
  {
    assert DropLast(order + [x]) == order && Last(order + [x]) == x;
  }

  /**
   * The retry loop of `replaceImage` can stop exactly when the pool holds an
   * image the grid does not show, and for a well-formed grid that is exactly
   * when the grid has fewer cells than the pool has images.
   */
  lemma {:induction false} FreeImageIffRoom(g: seq<string>)
    requires WellFormed(g)
    ensures (exists x :: x in Images && x !in g) <==> |g| < |Images|
  {
    var shown, pool := Elements(g), Elements(Images);
    DistinctCardinality(g);
    ImagesDistinct();
    DistinctCardinality(Images);
    assert shown <= pool by {
      forall x | x in shown ensures x in pool {
        var i :| 0 <= i < |g| && g[i] == x;
      }
    }
    if |g| < |Images| {
      if pool - shown == {} {
        assert pool <= shown by {
          forall x | x in pool ensures x in shown {
            assert x !in pool - shown;
          }
        }
        SubsetCardinality(pool, shown);
        assert false;
      }
      var x :| x in pool - shown;
      assert x in Images && x !in g;
    }
    if x :| x in Images && x !in g {
      assert shown <= pool - {x};
      SubsetCardinality(shown, pool - {x});
    }
  }

  /**
   * One replacement keeps the grid well-formed and its length fixed; a shown
   * image disappears from the grid (its cell now shows a previously hidden
   * image), an image not shown leaves the grid as it was.
   */
  lemma ReplacedKeepsWellFormed(g: seq<string>, x: string, g2: seq<string>)
    requires WellFormed(g) && Replaced(g, x, g2)
    ensures WellFormed(g2) && |g2| == |g|
    ensures x in g ==> x !in g2 && g2 != g
    ensures x !in g ==> g2 == g
  {
    if x in g {
      var i := FirstIndex(g, x).value;
      forall j, k | 0 <= j < k < |g2| ensures g2[j] != g2[k] {
        if j == i { assert g2[k] == g[k]; } else if k == i { assert g2[j] == g[j]; }
      }
      forall j | 0 <= j < |g2| ensures g2[j] != x {
        if j != i {
          assert g2[j] == g[j];
          assert g[i] == x;
        }
      }
    }
  }

  /**
   * Any number of replacements keep the grid well-formed and its length
   * fixed, and a cell whose image was not among the replaced ones keeps it.
   */
  lemma {:induction false} ReplacedAllKeepsWellFormed(g: seq<string>, order: seq<string>, g2: seq<string>)
    requires WellFormed(g) && ReplacedAll(g, order, g2)
    ensures WellFormed(g2) && |g2| == |g|
    ensures forall c :: 0 <= c < |g| && g[c] !in order ==> g2[c] == g[c]
    decreases |order|
  {
    if order != [] {
      var mid :| ReplacedAll(g, DropLast(order), mid) && Replaced(mid, Last(order), g2);
      ReplacedAllKeepsWellFormed(g, DropLast(order), mid);
      ReplacedKeepsWellFormed(mid, Last(order), g2);
      forall c | 0 <= c < |g| && g[c] !in order ensures g2[c] == g[c] {
        assert g[c] !in DropLast(order);
        assert mid[c] == g[c];
        match FirstIndex(mid, Last(order))
        case None =>
        case Some(i) => assert mid[i] == Last(order);
      }
    }
  }

  /**
   * The state of the puzzle screen: `GridState` with its fixed-size grid and
   * the selection the image views share.
   */
  class GridState {
    const size: nat
    const grid: array<string>
    var selected: set<string>

    ghost predicate Valid()
      reads this, grid
    {
      grid.Length == size && WellFormed(grid[..])
    }

    /** `init(size:)`: the first `size` images of the pool, in pool order. */
    constructor (size: nat)
      requires size <= |Images|
      ensures Valid() && fresh(grid)
      ensures grid[..] == Images[..size] && selected == {}
    {
      this.size := size;
      grid := new string[size](_ => "");
      selected := {};
      new;
      for index := 0 to size
        invariant grid.Length == size && selected == {}
        invariant grid[..index] == Images[..index]
      {
        grid[index] := Images[index];
      }
      assert grid[..] == Images[..size];
      ImagesDistinct();
    }

    /** `isSelected` of the image view showing `image`. */
    predicate IsSelected(image: string)
      reads this
    {
      image in selected
    }

    /**
     * `replaceImage(_:)`. The retry loop's random draws are collapsed into
     * one choice among the draws that end it: a pool image the grid does not
     * show. Such an image exists (so the loop ends) exactly when the grid is
     * smaller than the pool, see FreeImageIffRoom.
     */
    method ReplaceImage(image: string)
      requires Valid()
      requires image in grid[..] ==> size < |Images|
      modifies grid
      ensures Valid()
      ensures Replaced(old(grid[..]), image, grid[..])
    {
      var index := FirstIndex(grid[..], image);
      if index.None? {
        return;
      }
      FreeImageIffRoom(grid[..]);
      var newImage :| newImage in Images && newImage !in grid[..];
      grid[index.value] := newImage;
      ReplacedKeepsWellFormed(old(grid[..]), image, grid[..]);
    }
  }

  /** The tap gesture of an image view: toggle the image's membership in `selected`. */
  method Tap(state: GridState, image: string)
    modifies state
    ensures state.selected == Toggled(old(state.selected), image)
  {
    if state.IsSelected(image) {
      state.selected := state.selected - {image};
    } else {
      state.selected := state.selected + {image};
    }
  }

  /**
   * The Shuffle button: `replaceImage` once for each image selected when the
   * button was pressed, in the set's (unspecified) iteration order recorded
   * in `order`, then an empty selection.
   */
  method Shuffle(state: GridState) returns (ghost order: seq<string>)
    requires state.Valid()
    requires state.size < |Images| || forall x :: x in state.selected ==> x !in state.grid[..]
    modifies state, state.grid
    ensures state.Valid() && state.selected == {}
    ensures Distinct(order) && Elements(order) == old(state.selected)
    ensures ReplacedAll(old(state.grid[..]), order, state.grid[..])
    ensures forall c :: 0 <= c < state.size && old(state.grid[c]) !in old(state.selected) ==>
      state.grid[c] == old(state.grid[c])
  {
    var rest := state.selected;
    order := [];
    while rest != {}
      invariant state.Valid()
      invariant state.selected == old(state.selected)
      invariant rest == old(state.selected) - Elements(order)
      invariant Elements(order) <= old(state.selected)
      invariant Distinct(order)
      invariant ReplacedAll(old(state.grid[..]), order, state.grid[..])
      invariant state.size < |Images| ||
        (state.grid[..] == old(state.grid[..]) && forall x :: x in rest ==> x !in state.grid[..])
      decreases rest
    {
      var x :| x in rest;
      ghost var before := state.grid[..];
      state.ReplaceImage(x);
      ReplacedAllSnoc(old(state.grid[..]), order, before, x, state.grid[..]);
      order := order + [x];
      rest := rest - {x};
    }
    assert Elements(order) == old(state.selected) by {
      forall x | x in old(state.selected) ensures x in Elements(order) {
        assert x !in rest;
      }
    }
    state.selected := {};
    ReplacedAllKeepsWellFormed(old(state.grid[..]), order, state.grid[..]);
  }
}
