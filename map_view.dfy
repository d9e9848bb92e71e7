/**
 * The overlay side of the dashboard as a state machine: the lazily created
 * map, the single overlay slot (`currentLayer`), the single legend slot
 * (`legend`), and the operations loadColorizedOverlay, initializeMap,
 * updateLayer and addLegend that move between states. The map itself is
 * represented by the overlays and controls attached to it; the network,
 * image decoding and GeoTIFF parsing are inputs to the operations.
 */
module MapView {
  import opened JsValues
  import opened Strings
  import opened ColorRamp
  import opened PngColorize

  /** What parseGeoraster made of the fetched file. */
  datatype Georaster = Georaster(bytes: seq<Byte>)

  /**
   * An overlay layer, with an identity so that a new layer is told apart from an old one.
   * A RasterLayer colours each cell of its raster with
   * `GeoTiffColor.PixelValuesToColor(values, useSuit)`; drawing it is not part of this model.
   */
  datatype Layer =
    | ImageOverlay(id: nat, image: seq<Byte>)
    | RasterLayer(id: nat, raster: Georaster, useSuit: bool)
  {
    function Id(): nat {
      match this
      case ImageOverlay(i, _) => i
      case RasterLayer(i, _, _) => i
    }
  }

  /** A legend control built by addLegend for a ramp flag. */
  datatype Legend = Legend(id: nat, useSuit: bool) {
    function Name(): string { LegendName(useSuit) }
    function Levels(): seq<LegendLevel> { LegendLevels(useSuit) }
  }

  /** How one call of loadColorizedOverlay ended. */
  datatype LoadOutcome =
    | NotFound
    | PngLoaded
    | PngFailed(message: string)
    | TiffLoaded
    | TiffFailed
    | Ignored

  /** The contents of a slot as a list: empty or the one occupant. */
  function SlotContents<T>(slot: Option<T>): (s: seq<T>)
    ensures |s| <= 1
  {
    match slot
    case None => []
    case Some(x) => [x]
  }

  /** The list with every occurrence of x removed (`removeLayer`, `removeControl`). */
  function Without<T(==,!new)>(s: seq<T>, x: T): (r: seq<T>)
    ensures |r| <= |s|
    ensures forall y :: y in r <==> y in s && y != x
  {
    if s == [] then [] else (if s[0] == x then [] else [s[0]]) + Without(s[1..], x)
  }

  lemma WithoutSole<T(!new)>(x: T)
    ensures Without([x], x) == []
  {
    assert [x][1..] == [];
  }

  /** The path updateLayer builds from the selection. */
  function LayerPath(crop: Option<string>, ssp: Option<string>, period: Option<string>): string {
    "src/cog/" + JsString(ssp, Null) + "_" + JsString(period, Null) + "_" + JsString(crop, Null) + "_s0_suitability.png"
  }

  /** Every path updateLayer builds names a PNG, so it never takes the GeoTIFF branch. */
  lemma LayerPathIsPng(crop: Option<string>, ssp: Option<string>, period: Option<string>)
    ensures EndsWith(LayerPath(crop, ssp, period), ".png")
    ensures !EndsWith(LayerPath(crop, ssp, period), ".tif")
    ensures !EndsWith(LayerPath(crop, ssp, period), ".tiff")
  {
    var p := LayerPath(crop, ssp, period);
    var n := |p|;
    assert p[n - 4..] == ".png";
    assert p[n - 1] == 'g';
  }

  class MapState {
    /** `map` has been created, with its base tile layer. */
    var mapReady: bool
    var currentLayer: Option<Layer>
    var legend: Option<Legend>
    /** Overlay layers attached to the map. */
    var overlays: seq<Layer>
    /** Legend controls attached to the map. */
    var controls: seq<Legend>
    /** The messages shown with `alert`, oldest first. */
    var alerts: seq<string>
    /** The identity the next created layer or legend gets. */
    var nextId: nat

    /**
     * The map shows exactly what the two slots hold (so at most one overlay
     * and at most one legend), and nothing is attached before the map exists.
     */
    ghost predicate Valid()
      reads this
    {
      && overlays == SlotContents(currentLayer)
      && controls == SlotContents(legend)
      && (!mapReady ==> currentLayer.None? && legend.None?)
      && (currentLayer.Some? ==> currentLayer.value.Id() < nextId)
      && (legend.Some? ==> legend.value.id < nextId)
    }

    /** The module's initial state: no map, empty slots. */
    constructor ()
      ensures Valid() && !mapReady
      ensures currentLayer == None && legend == None && alerts == []
    {
      mapReady := false;
      currentLayer := None;
      legend := None;
      overlays := [];
      controls := [];
      alerts := [];
      nextId := 0;
    }

    /** initializeMap: creates the map once; every later call does nothing. */
    method InitializeMap()
      requires Valid()
      modifies this
      ensures Valid() && mapReady
      ensures old(mapReady) ==> unchanged(this)
      ensures currentLayer == old(currentLayer) && legend == old(legend)
      ensures overlays == old(overlays) && controls == old(controls)
      ensures alerts == old(alerts) && nextId == old(nextId)
    {
      if mapReady {
        return;
      }
      mapReady := true;
    }

    /** Detach the current overlay, if any, and empty the slot. */
    method RemoveCurrentLayer()
      requires Valid() && mapReady
      modifies this
      ensures Valid() && mapReady
      ensures currentLayer == None && overlays == []
      ensures legend == old(legend) && controls == old(controls)
      ensures alerts == old(alerts) && nextId == old(nextId)
    {
      if currentLayer.Some? {
        WithoutSole(currentLayer.value);
        overlays := Without(overlays, currentLayer.value);
        currentLayer := None;
      }
    }

    /** Create a layer, attach it to the map and put it in the (empty) slot. */
    method AttachLayer(layer: Layer)
      requires Valid() && mapReady && currentLayer.None? && layer.Id() == nextId
      modifies this
      ensures Valid() && mapReady
      ensures currentLayer == Some(layer) && overlays == [layer]
      ensures legend == old(legend) && controls == old(controls)
      ensures alerts == old(alerts) && nextId == old(nextId) + 1
    {
      currentLayer := Some(layer);
      overlays := overlays + [layer];
      nextId := nextId + 1;
    }

    /**
     * loadColorizedOverlay(url, useSuit). The world's answers are inputs:
     * `found` is the answer of the HEAD probe, `pixels` the decoded image's RGBA buffer
     * (or `decodeError` when decoding throws), `tiff` what fetching and
     * parsing a GeoTIFF yields.
     */
    method LoadColorizedOverlay(url: string, useSuit: bool, found: bool,
                                pixels: array<Byte>, decodeError: Option<string>,
                                tiff: Result<Georaster>)
      returns (outcome: LoadOutcome)
      requires Valid() && mapReady && pixels.Length % 4 == 0
      modifies this, pixels
      ensures Valid() && mapReady
      ensures legend == old(legend) && controls == old(controls)
      ensures nextId == old(nextId) + (if outcome == PngLoaded || outcome == TiffLoaded then 1 else 0)
      // a missing file: an alert, and the old layer stays
      ensures !found ==>
        && outcome == NotFound
        && currentLayer == old(currentLayer)
        && alerts == old(alerts) + ["File not found: " + url]
      // otherwise the old layer is gone before anything is loaded
      ensures found && EndsWith(url, ".png") && decodeError.None? ==>
        && outcome == PngLoaded
        && currentLayer == Some(ImageOverlay(old(nextId), Colorized(old(pixels[..]), useSuit)))
        && alerts == old(alerts)
      ensures found && EndsWith(url, ".png") && decodeError.Some? ==>
        && outcome == PngFailed(decodeError.value)
        && currentLayer == None
        && alerts == old(alerts)
      ensures found && !EndsWith(url, ".png") && (EndsWith(url, ".tif") || EndsWith(url, ".tiff")) ==>
        if tiff.Success? then
          && outcome == TiffLoaded
          && currentLayer == Some(RasterLayer(old(nextId), tiff.value, useSuit))
          && alerts == old(alerts)
        else
          && outcome == TiffFailed
          && currentLayer == None
          && alerts == old(alerts) + ["Error loading GeoTIFF file: " + tiff.message]
      ensures found && !EndsWith(url, ".png") && !EndsWith(url, ".tif") && !EndsWith(url, ".tiff") ==>
        && outcome == Ignored
        && currentLayer == None
        && alerts == old(alerts)
      // the pixel buffer is rewritten only when a PNG is recoloured
      ensures !(found && EndsWith(url, ".png") && decodeError.None?) ==> pixels[..] == old(pixels[..])
    {
      if !found {
        alerts := alerts + ["File not found: " + url];
        return NotFound;
      }
      RemoveCurrentLayer();
      if EndsWith(url, ".png") {
        if decodeError.Some? {
          return PngFailed(decodeError.value);
        }
        ColorizeBuffer(pixels, useSuit);
        AttachLayer(ImageOverlay(nextId, pixels[..]));
        return PngLoaded;
      }
      if EndsWith(url, ".tif") || EndsWith(url, ".tiff") {
        if tiff.Failure? {
          alerts := alerts + ["Error loading GeoTIFF file: " + tiff.message];
          return TiffFailed;
        }
        AttachLayer(RasterLayer(nextId, tiff.value, useSuit));
        return TiffLoaded;
      }
      return Ignored;
    }

    /** addLegend(useSuit): detach the old legend, if any, and attach a new one. */
    method AddLegend(useSuit: bool)
      requires Valid() && mapReady
      modifies this
      ensures Valid() && mapReady
      ensures legend == Some(Legend(old(nextId), useSuit)) && controls == [legend.value]
      ensures currentLayer == old(currentLayer) && overlays == old(overlays)
      ensures alerts == old(alerts) && nextId == old(nextId) + 1
    {
      if legend.Some? {
        WithoutSole(legend.value);
        controls := Without(controls, legend.value);
      }
      var created := Legend(nextId, useSuit);
      nextId := nextId + 1;
      legend := Some(created);
      controls := controls + [created];
    }

    /**
     * updateLayer for a selection: make sure the map exists, load the PNG the
     * selection names with the suitability ramp, then replace the legend by a
     * suitability legend. A decoding failure throws out of the load, and the
     * legend is then left as it was.
     */
    method UpdateLayer(crop: Option<string>, ssp: Option<string>, period: Option<string>,
                       found: bool, pixels: array<Byte>, decodeError: Option<string>)
      requires Valid() && pixels.Length % 4 == 0
      modifies this, pixels
      ensures Valid() && mapReady
      ensures !found ==>
        && currentLayer == old(currentLayer)
        && legend == Some(Legend(old(nextId), true))
        && alerts == old(alerts) + ["File not found: " + LayerPath(crop, ssp, period)]
      ensures found && decodeError.None? ==>
        && currentLayer == Some(ImageOverlay(old(nextId), Colorized(old(pixels[..]), true)))
        && legend == Some(Legend(old(nextId) + 1, true))
        && alerts == old(alerts)
      ensures found && decodeError.Some? ==>
        && currentLayer == None
        && legend == old(legend)
        && alerts == old(alerts)
      ensures !(found && decodeError.None?) ==> pixels[..] == old(pixels[..])
    {
      InitializeMap();
      var path := LayerPath(crop, ssp, period);
      LayerPathIsPng(crop, ssp, period);
      // The path always ends in ".png", so the GeoTIFF input is never consulted.
      var outcome := LoadColorizedOverlay(path, true, found, pixels, decodeError, Failure("not a GeoTIFF path"));
      if outcome.PngFailed? {
        return;
      }
      RemoveLegend();
      AddLegend(true);
    }

    /** Detach the current legend, if any, and empty the slot. */
    method RemoveLegend()
      requires Valid() && mapReady
      modifies this
      ensures Valid() && mapReady
      ensures legend == None && controls == []
      ensures currentLayer == old(currentLayer) && overlays == old(overlays)
      ensures alerts == old(alerts) && nextId == old(nextId)
    {
      if legend.Some? {
        WithoutSole(legend.value);
        controls := Without(controls, legend.value);
        legend := None;
      }
    }
  }

  /**
   * Whatever updateLayer loads, the overlay it installs and the legend it
   * attaches use the same ramp: the suitability table.
   */
  lemma UpdateLayerRampAgreesWithLegend(legendId: nat)
    ensures Legend(legendId, true).Levels()[0].color == Ramp(true)[0].color
    ensures forall k :: 0 <= k < 4 ==> Legend(legendId, true).Levels()[k].color == SuitColorMap[k].color
    ensures Legend(legendId, true).Levels()[4].color == SuitColorMap[5].color
    ensures Legend(legendId, true).Name() == "Suitability"
  {
    LegendShowsStops(true);
  }
}
