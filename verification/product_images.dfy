/**
 * The product-image service: images of a product, of which exactly one is
 * the product's main image. Create, update and remove keep that rule, and
 * every bulk flag change is filtered by the image's product.
 */
module ProductImages {
  import opened Results
  import Ordering

  /** `url` is the opaque path the upload helper returns. */
  datatype Image = Image(id: int, productId: int, url: string, isMain: bool)

  type Images = map<int, Image>

  datatype CreateDto = CreateDto(productId: int, isMain: Option<bool>)

  /** `i` is a main image of product `pid`. */
  predicate IsMain(imgs: Images, i: int, pid: int)
  {
    i in imgs && imgs[i].productId == pid && imgs[i].isMain
  }

  predicate HasImage(imgs: Images, pid: int)
  {
    exists i :: i in imgs && imgs[i].productId == pid
  }

  /** A product with at least one image has exactly one main image. */
  ghost predicate OneMain(imgs: Images, pid: int)
  {
    && (HasImage(imgs, pid) ==> exists m :: IsMain(imgs, m, pid))
    && (forall a, b :: IsMain(imgs, a, pid) && IsMain(imgs, b, pid) ==> a == b)
  }

  /** Every image is stored under its own id, and every product obeys the main-image rule. */
  ghost predicate Valid(imgs: Images)
  {
    && (forall i :: i in imgs ==> imgs[i].id == i)
    && (forall pid :: OneMain(imgs, pid))
  }

  /** The images of product `pid`. */
  function OfProduct(imgs: Images, pid: int): set<int>
  {
    set i | i in imgs && imgs[i].productId == pid
  }

  /**
   * `updateMany({ where: { productId, id: { not: keep } }, data: { isMain: false } })`;
   * create passes no `keep`.
   */
  function ClearMains(imgs: Images, pid: int, keep: Option<int>): (r: Images)
    ensures r.Keys == imgs.Keys
    ensures forall i :: i in imgs ==> r[i].id == imgs[i].id && r[i].productId == imgs[i].productId && r[i].url == imgs[i].url
    ensures forall i :: i in imgs ==>
      r[i].isMain == (imgs[i].isMain && (imgs[i].productId != pid || keep == Some(i)))
  {
    map i | i in imgs :: if imgs[i].productId == pid && keep != Some(i) then imgs[i].(isMain := false) else imgs[i]
  }

  /** Sets the flag of one image. */
  function SetMain(imgs: Images, id: int, flag: bool): (r: Images)
    requires id in imgs
    ensures r.Keys == imgs.Keys
    ensures r[id] == imgs[id].(isMain := flag)
    ensures forall i :: i in imgs && i != id ==> r[i] == imgs[i]
  {
    imgs[id := imgs[id].(isMain := flag)]
  }

  /**
   * `create`: the new image is main when the DTO asks for it (after every
   * image of the product lost its flag) or when the product has no main
   * image yet; otherwise `dto.isMain ?? false`.
   */
  function Create(imgs: Images, dto: CreateDto, url: string, newId: int): (r: (Images, Image))
    requires newId !in imgs
    ensures r.1 == Image(newId, dto.productId, url, dto.isMain == Some(true) || !exists m :: IsMain(imgs, m, dto.productId))
    ensures r.0.Keys == imgs.Keys + {newId} && r.0[newId] == r.1
    ensures forall i :: i in imgs && imgs[i].productId != dto.productId ==> r.0[i] == imgs[i]
    ensures forall i :: i in imgs ==>
      r.0[i] == (if dto.isMain == Some(true) then imgs[i].(isMain := imgs[i].isMain && imgs[i].productId != dto.productId) else imgs[i])
  {
    var hasMain := exists m :: m in imgs && IsMain(imgs, m, dto.productId);
    var isMain := dto.isMain == Some(true) || !hasMain;
    var cleared := if dto.isMain == Some(true) then ClearMains(imgs, dto.productId, None) else imgs;
    var image := Image(newId, dto.productId, url, isMain);
    (cleared[newId := image], image)
  }

  /** Create keeps every product's main-image rule, and the product then has an image. */
  lemma CreateKeepsOneMain(imgs: Images, dto: CreateDto, url: string, newId: int)
    requires Valid(imgs) && newId !in imgs
    ensures Valid(Create(imgs, dto, url, newId).0)
    ensures HasImage(Create(imgs, dto, url, newId).0, dto.productId)
  {
    var r := Create(imgs, dto, url, newId).0;
    var pid := dto.productId;
    assert r[newId].productId == pid;
    forall q ensures OneMain(r, q) {
      if q != pid {
        OtherProductUnchanged(imgs, r, newId, q);
      } else if r[newId].isMain {
        forall a | IsMain(r, a, pid) ensures a == newId {
          if a != newId {
            assert imgs[a].productId == pid && imgs[a].isMain;
            assert dto.isMain != Some(true);
            assert IsMain(imgs, a, pid);
          }
        }
        assert IsMain(r, newId, pid);
      } else {
        var m :| IsMain(imgs, m, pid);
        assert IsMain(r, m, pid);
        forall a | IsMain(r, a, pid) ensures a == m {
          assert IsMain(imgs, a, pid);
        }
      }
    }
    assert r[newId].productId == pid;
  }

  /** A step that adds `extra` to an image of another product leaves `q`'s images as they were. */
  lemma OtherProductUnchanged(imgs: Images, r: Images, extra: int, q: int)
    requires OneMain(imgs, q)
    requires r.Keys == imgs.Keys + {extra} && extra !in imgs && r[extra].productId != q
    requires forall i :: i in imgs && imgs[i].productId == q ==> r[i] == imgs[i]
    requires forall i :: i in imgs ==> r[i].productId == imgs[i].productId
    ensures OneMain(r, q)
  {
    if HasImage(r, q) {
      var x :| x in r && r[x].productId == q;
      assert x in imgs && imgs[x].productId == q;
      var m :| IsMain(imgs, m, q);
      assert IsMain(r, m, q);
    }
    forall a, b | IsMain(r, a, q) && IsMain(r, b, q) ensures a == b {
      assert IsMain(imgs, a, q) && IsMain(imgs, b, q);
    }
  }

  /** With `isMain: true` the new image becomes the product's only main image. */
  lemma CreateAsMain(imgs: Images, dto: CreateDto, url: string, newId: int)
    requires newId !in imgs && dto.isMain == Some(true)
    ensures forall i :: IsMain(Create(imgs, dto, url, newId).0, i, dto.productId) <==> i == newId
  {
  }

  /** Another image of the same product exists. */
  predicate HasSibling(imgs: Images, id: int, pid: int)
  {
    exists i :: i in imgs && imgs[i].productId == pid && i != id
  }

  /** The product's images other than `id`; empty exactly when it has no sibling. */
  function Siblings(imgs: Images, id: int, pid: int): (r: set<int>)
    ensures r == {} <==> !HasSibling(imgs, id, pid)
    ensures forall i :: i in r <==> i in imgs && imgs[i].productId == pid && i != id
  {
    var r := set i | i in imgs && imgs[i].productId == pid && i != id;
    assert r == {} <==> !HasSibling(imgs, id, pid) by {
      if !HasSibling(imgs, id, pid) {
        SetsEqual(r, {});
      } else {
        var i :| i in imgs && imgs[i].productId == pid && i != id;
        assert i in r;
      }
    }
    r
  }

  /**
   * `update`: an unknown id is NotFound; clearing the flag of a product's
   * only image is BadRequest; clearing it when no other image is main first
   * promotes the product's first other image; setting it clears every other
   * image of the product; an absent flag changes nothing.
   */
  function Update(imgs: Images, id: int, isMain: Option<bool>): (r: Result<(Images, Image)>)
    ensures id !in imgs ==> r == Err(NotFound)
    ensures id in imgs && isMain == Some(false) && !HasSibling(imgs, id, imgs[id].productId) ==> r == Err(BadRequest)
    ensures r.Ok? <==> id in imgs && !(isMain == Some(false) && !HasSibling(imgs, id, imgs[id].productId))
    ensures r.Ok? ==>
      && r.value.0.Keys == imgs.Keys
      && r.value.1 == r.value.0[id]
      && r.value.1 == imgs[id].(isMain := isMain.GetOr(imgs[id].isMain))
      && (forall i :: i in imgs && imgs[i].productId != imgs[id].productId ==> r.value.0[i] == imgs[i])
      && (forall i :: i in imgs ==> r.value.0[i].(isMain := imgs[i].isMain) == imgs[i])
  {
    if id !in imgs then Err(NotFound)
    else
      var image := imgs[id];
      var pid := image.productId;
      var others := Siblings(imgs, id, pid);
      if isMain == Some(false) && others == {} then Err(BadRequest)
      else
        var promoted :=
          if isMain == Some(false) && !(exists m :: m in imgs && IsMain(imgs, m, pid) && m != id) then
            Promote(imgs, id, pid)
          else imgs;
        var cleared := if isMain == Some(true) then ClearMains(promoted, pid, Some(id)) else promoted;
        var updated := image.(isMain := isMain.GetOr(image.isMain));
        Ok((cleared[id := updated], updated))
  }

  /**
   * `productImages.find(img => img.id !== id)`: the product's first other
   * image, taken in ascending id order, gets the flag.
   */
  function Promote(imgs: Images, id: int, pid: int): (r: Images)
    requires id in imgs && imgs[id].productId == pid
    requires HasSibling(imgs, id, pid)
    ensures r.Keys == imgs.Keys
    ensures var first := Ordering.Min(Siblings(imgs, id, pid));
      && first in imgs && first != id && imgs[first].productId == pid
      && r == SetMain(imgs, first, true)
      && forall i :: i in imgs && imgs[i].productId == pid && i != id ==> first <= i
  {
    SetMain(imgs, Ordering.Min(Siblings(imgs, id, pid)), true)
  }

  /** Some image of `pid` other than `id` carries the flag. */
  predicate OtherMain(imgs: Images, id: int, pid: int)
  {
    exists m :: m in imgs && IsMain(imgs, m, pid) && m != id
  }

  /**
   * Clearing the flag when no other image of the product is main promotes
   * the product's first other image by id, and touches no other image.
   */
  lemma UpdatePromotesFirst(imgs: Images, id: int)
    requires Update(imgs, id, Some(false)).Ok?
    requires !OtherMain(imgs, id, imgs[id].productId)
    ensures var r := Update(imgs, id, Some(false)).value.0;
      var first := Ordering.Min(Siblings(imgs, id, imgs[id].productId));
      && first != id && imgs[first].productId == imgs[id].productId
      && r[first] == imgs[first].(isMain := true)
      && !r[id].isMain
      && forall i :: i in imgs && i != first && i != id ==> r[i] == imgs[i]
  {
  }

  /**
   * No other image gains the flag unless the update clears the flag while no
   * other image of the product is main.
   */
  lemma UpdateNoPromotion(imgs: Images, id: int, isMain: Option<bool>)
    requires Update(imgs, id, isMain).Ok?
    requires isMain != Some(false) || OtherMain(imgs, id, imgs[id].productId)
    ensures var r := Update(imgs, id, isMain).value.0;
      forall i :: i in imgs && i != id && !imgs[i].isMain ==> !r[i].isMain
  {
  }

  /** Every successful update keeps every product's main-image rule. */
  lemma UpdateKeepsOneMain(imgs: Images, id: int, isMain: Option<bool>)
    requires Valid(imgs)
    requires Update(imgs, id, isMain).Ok?
    ensures Valid(Update(imgs, id, isMain).value.0)
  {
    var r := Update(imgs, id, isMain).value.0;
    var pid := imgs[id].productId;
    forall i | i in r ensures r[i].id == i {
      assert r[i].id == imgs[i].id;
    }
    forall q ensures OneMain(r, q) {
      if q != pid {
        forall i | i in imgs && imgs[i].productId == q ensures r[i] == imgs[i] {}
        SameProductImages(imgs, r, q);
      } else {
        UpdateOwnProduct(imgs, id, isMain);
      }
    }
  }

  /** A step that leaves every image of `q` as it was keeps `q`'s rule. */
  lemma SameProductImages(imgs: Images, r: Images, q: int)
    requires OneMain(imgs, q)
    requires r.Keys == imgs.Keys
    requires forall i :: i in imgs && imgs[i].productId == q ==> r[i] == imgs[i]
    requires forall i :: i in imgs ==> r[i].productId == imgs[i].productId
    ensures OneMain(r, q)
  {
    if HasImage(r, q) {
      var x :| x in r && r[x].productId == q;
      assert imgs[x].productId == q;
      var m :| IsMain(imgs, m, q);
      assert IsMain(r, m, q);
    }
    forall a, b | IsMain(r, a, q) && IsMain(r, b, q) ensures a == b {
      assert IsMain(imgs, a, q) && IsMain(imgs, b, q);
    }
  }

  lemma UpdateOwnProduct(imgs: Images, id: int, isMain: Option<bool>)
    requires Valid(imgs)
    requires Update(imgs, id, isMain).Ok?
    ensures OneMain(Update(imgs, id, isMain).value.0, imgs[id].productId)
  {
    var r := Update(imgs, id, isMain).value.0;
    var pid := imgs[id].productId;
    assert OneMain(imgs, pid);
    assert HasImage(imgs, pid);
    var m :| IsMain(imgs, m, pid);
    match isMain
    case None =>
      assert r[id] == imgs[id];
      SameProductImages(imgs, r, pid);
    case Some(true) =>
      assert IsMain(r, id, pid);
      forall a | IsMain(r, a, pid) ensures a == id {}
    case Some(false) =>
      if exists m' :: m' in imgs && IsMain(imgs, m', pid) && m' != id {
        var m' :| m' in imgs && IsMain(imgs, m', pid) && m' != id;
        assert IsMain(r, m', pid);
        forall a | IsMain(r, a, pid) ensures a == m' {
          assert IsMain(imgs, a, pid);
        }
      } else {
        var first := Ordering.Min(Siblings(imgs, id, pid));
        assert IsMain(r, first, pid);
        forall a | IsMain(r, a, pid) ensures a == first {
        }
      }
  }

  /**
   * After a successful update the image's flag is the requested one, and
   * with `isMain: true` it is the product's only main image.
   */
  lemma UpdateSetsFlag(imgs: Images, id: int, isMain: Option<bool>)
    requires Update(imgs, id, isMain).Ok?
    ensures var r := Update(imgs, id, isMain).value.0;
      && (isMain.Some? ==> r[id].isMain == isMain.value)
      && (isMain == Some(true) ==> forall i :: IsMain(r, i, imgs[id].productId) <==> i == id)
      && (isMain.None? ==> r == imgs)
  {
    var r := Update(imgs, id, isMain).value.0;
    if isMain.None? {
      MapsEqual(r, imgs);
    }
  }

  /** `remove`: unknown ids are NotFound and the main image cannot be deleted. */
  function Remove(imgs: Images, id: int): (r: Result<(Images, Image)>)
    ensures id !in imgs ==> r == Err(NotFound)
    ensures id in imgs && imgs[id].isMain ==> r == Err(BadRequest)
    ensures r.Ok? <==> id in imgs && !imgs[id].isMain
    ensures r.Ok? ==> r.value.1 == imgs[id] && r.value.0 == imgs - {id}
  {
    if id !in imgs then Err(NotFound)
    else if imgs[id].isMain then Err(BadRequest)
    else Ok((imgs - {id}, imgs[id]))
  }

  /** Removing a non-main image keeps every product's main-image rule. */
  lemma RemoveKeepsOneMain(imgs: Images, id: int)
    requires Valid(imgs) && Remove(imgs, id).Ok?
    ensures Valid(Remove(imgs, id).value.0)
  {
    var r := Remove(imgs, id).value.0;
    forall q ensures OneMain(r, q) {
      assert OneMain(imgs, q);
      if HasImage(r, q) {
        var x :| x in r && r[x].productId == q;
        assert x in imgs && imgs[x].productId == q;
        var m :| IsMain(imgs, m, q);
        assert m != id;
        assert IsMain(r, m, q);
      }
      forall a, b | IsMain(r, a, q) && IsMain(r, b, q) ensures a == b {
        assert IsMain(imgs, a, q) && IsMain(imgs, b, q);
      }
    }
  }

  /**
   * `findAllByProduct`: the product's images, each once. The store's order
   * is unspecified; the model lists them by id.
   */
  function FindAllByProduct(imgs: Images, pid: int): (r: seq<Image>)
    ensures forall x :: x in r ==> x in imgs.Values && x.productId == pid
    ensures forall i :: i in imgs && imgs[i].productId == pid ==> imgs[i] in r
    ensures |r| == |OfProduct(imgs, pid)|
  {
    var ids := Ordering.Ascending(OfProduct(imgs, pid));
    assert forall k :: 0 <= k < |ids| ==> ids[k] in OfProduct(imgs, pid) by {
      forall k | 0 <= k < |ids| ensures ids[k] in OfProduct(imgs, pid) {
        assert ids[k] in ids;
      }
    }
    var r := seq(|ids|, k requires 0 <= k < |ids| => imgs[ids[k]]);
    forall i | i in imgs && imgs[i].productId == pid ensures imgs[i] in r {
      assert i in OfProduct(imgs, pid);
      var k :| 0 <= k < |ids| && ids[k] == i;
      assert r[k] == imgs[i];
    }
    r
  }

  /** The urls of the product's main images (`Images: { where: { isMain: true } }`). */
  function MainUrls(imgs: Images, pid: int): (r: seq<string>)
    ensures forall u :: u in r <==> exists i :: IsMain(imgs, i, pid) && imgs[i].url == u
  {
    var mains := set i | i in imgs && IsMain(imgs, i, pid);
    var ids := Ordering.Ascending(mains);
    assert forall k :: 0 <= k < |ids| ==> ids[k] in mains by {
      forall k | 0 <= k < |ids| ensures ids[k] in mains {
        assert ids[k] in ids;
      }
    }
    var r := seq(|ids|, k requires 0 <= k < |ids| => imgs[ids[k]].url);
    forall u ensures u in r <==> exists i :: IsMain(imgs, i, pid) && imgs[i].url == u {
      if u in r {
        var k :| 0 <= k < |r| && r[k] == u;
        assert IsMain(imgs, ids[k], pid);
      }
      if exists i :: IsMain(imgs, i, pid) && imgs[i].url == u {
        var i :| IsMain(imgs, i, pid) && imgs[i].url == u;
        assert i in mains;
        var k :| 0 <= k < |ids| && ids[k] == i;
        assert r[k] == u;
      }
    }
    r
  }

  /** Under the rule, a product with images has exactly one main url. */
  lemma OneMainUrl(imgs: Images, pid: int)
    requires Valid(imgs) && HasImage(imgs, pid)
    ensures |MainUrls(imgs, pid)| == 1
  {
    assert OneMain(imgs, pid);
    var m :| IsMain(imgs, m, pid);
    var mains := set i | i in imgs && IsMain(imgs, i, pid);
    forall k ensures k in mains <==> k in {m} {
      if k in mains { assert IsMain(imgs, k, pid); }
    }
    SetsEqual(mains, {m});
  }
}
