/**
 * The signature capture pad: committed strokes, the stroke being drawn,
 * and the ref the gesture handlers read it through.
 */
module SignatureCanvas {
  import opened Wrappers
  import opened StrokePath

  /** What `saveSignature` hands to `onSave` (JSON-encoded in the app). */
  datatype SignatureData = SignatureData(paths: seq<string>, timestamp: int)

  /** Why a save was refused: the "No Signature" alert. */
  datatype SaveError = NoSignature

  class Canvas {
    var paths: seq<string>     // committed strokes (state `paths`)
    var currentPath: string    // the stroke in progress (state `currentPath`)
    var pathRef: string        // `pathRef.current`
    /** The touch points of the stroke in progress, when it began with a gesture start. */
    ghost var stroke: seq<Point>

    /**
     * The ref holds the same text as the current path, and a tracked stroke
     * is the one that text was built from, so the text starts with a
     * moveto.
     */
    ghost predicate Valid()
      reads this
      ensures Valid() ==> pathRef == currentPath
      ensures Valid() && stroke != [] ==> |currentPath| > 0 && currentPath[0] == 'M'
    {
      && pathRef == currentPath
      && (stroke != [] ==> currentPath == StrokeText(stroke))
    }

    /**
     * `hasSignature`: there is a committed stroke or a stroke in progress;
     * a tracked stroke always counts.
     */
    function HasSignature(): (b: bool)
      reads this
      ensures b <==> paths != [] || currentPath != ""
      ensures Valid() && stroke != [] ==> b
    {
      |paths| > 0 || |currentPath| > 0
    }

    /** A fresh pad; `initialSignature` is accepted and never read. */
    constructor (initialSignature: Option<string>)
      ensures Valid()
      ensures paths == [] && currentPath == "" && pathRef == "" && stroke == []
      ensures !HasSignature()
    {
      paths, currentPath, pathRef := [], "", "";
      stroke := [];
    }

    /** `onPanResponderGrant`: start a new stroke at `p`, dropping any stroke in progress. */
    method Grant(p: Point)
      modifies this
      ensures Valid()
      ensures paths == old(paths)
      ensures currentPath == pathRef == MoveTo(p)
      ensures stroke == [p]
      ensures ParseStroke(currentPath) == Some([p])
    {
      var newPath := MoveTo(p);
      pathRef := newPath;
      currentPath := newPath;
      stroke := [p];
      ParseStrokeText([p]);
    }

    /** `onPanResponderMove`: extend the stroke in progress to `p`. */
    method Move(p: Point)
      requires Valid()
      modifies this
      ensures Valid()
      ensures paths == old(paths)
      ensures currentPath == pathRef == old(pathRef) + LineTo(p)
      ensures |old(currentPath)| < |currentPath| && currentPath[..|old(currentPath)|] == old(currentPath)
      ensures stroke == if old(stroke) == [] then [] else old(stroke) + [p]
      ensures stroke != [] ==> ParseStroke(currentPath) == Some(stroke)
    {
      ExtendPath(pathRef, stroke, p);
      var newPath := pathRef + LineTo(p);
      pathRef := newPath;
      currentPath := newPath;
      if stroke != [] {
        stroke := stroke + [p];
      }
    }

    /** `onPanResponderRelease`: commit the stroke in progress. */
    method Release()
      requires Valid()
      modifies this
      ensures Valid()
      ensures paths == old(paths) + [old(pathRef)]
      ensures currentPath == "" && pathRef == "" && stroke == []
      ensures old(stroke) != [] ==> ParseStroke(paths[|paths| - 1]) == Some(old(stroke))
      ensures HasSignature()
    {
      paths := paths + [pathRef];
      currentPath := "";
      pathRef := "";
      if stroke != [] {
        ParseStrokeText(stroke);
      }
      stroke := [];
    }

    /** `clearSignature`: forget every stroke, from any state. */
    method Clear()
      modifies this
      ensures Valid()
      ensures paths == [] && currentPath == "" && pathRef == "" && stroke == []
      ensures !HasSignature()
    {
      paths, currentPath, pathRef := [], "", "";
      stroke := [];
    }

    /**
     * `saveSignature`: refused exactly when nothing can be saved; otherwise
     * the committed strokes (not the one in progress) and the timestamp.
     * The pad itself is left as it is.
     */
    method Save(timestamp: int) returns (r: Result<SignatureData, SaveError>)
      requires Valid()
      ensures r.Failure? <==> !HasSignature()
      ensures r.Failure? ==> r.error == NoSignature
      ensures r.Success? ==> r.value == SignatureData(paths, timestamp)
    {
      if |paths| == 0 && currentPath == "" {
        return Failure(NoSignature);
      }
      return Success(SignatureData(paths, timestamp));
    }
  }

  /**
   * A touch at (10, 10), moves to (20, 20) and (30, 10), a release and a
   * save give one stroke with a moveto and two linetos; after a clear (or
   * two) a save is refused.
   */
  method SignOnceThenClear(timestamp: int) returns (saved: Result<SignatureData, SaveError>, afterClear: Result<SignatureData, SaveError>)
    ensures saved == Success(SignatureData(["M10.00,10.00 L20.00,20.00 L30.00,10.00"], timestamp))
    ensures afterClear == Failure(NoSignature)
  {
    ExampleStrokeText();
    var pad := new Canvas(None);
    pad.Grant(Point(1000, 1000));
    pad.Move(Point(2000, 2000));
    pad.Move(Point(3000, 1000));
    ghost var drawn := pad.currentPath;
    assert drawn == MoveTo(Point(1000, 1000)) + LineTo(Point(2000, 2000)) + LineTo(Point(3000, 1000));
    pad.Release();
    assert pad.paths == [drawn];
    saved := pad.Save(timestamp);
    pad.Clear();
    pad.Clear();
    afterClear := pad.Save(timestamp);
  }
}
