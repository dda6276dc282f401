/**
 * The objects the entity manager creates and reads: unit definitions
 * (UnitData scriptable objects), live units (UnitSystem components), the
 * spawn position, and the entries an overlap query of the spawn zone returns.
 */
module Units {

  /** A 2D world position (UnityEngine.Vector2). */
  datatype Vec2 = Vec2(x: real, y: real)

  /**
   * One entry of the overlap query's result list: a collider reference that
   * is null (or destroyed), or a live collider whose game object does or does
   * not carry a UnitSystem component.
   */
  datatype Hit = Missing | Body(isUnit: bool)

  /**
   * A unit definition. The core never writes these fields, so they are
   * constants; the sprite is an opaque handle.
   */
  class UnitData {
    const unitID: int
    const unitName: string
    const unitImage: nat

    constructor (id: int, name: string, image: nat)
      ensures unitID == id && unitName == name && unitImage == image
    {
      unitID := id;
      unitName := name;
      unitImage := image;
    }

    /** A private copy of this definition: a new object with the same fields. */
    method Clone() returns (c: UnitData)
      ensures fresh(c)
      ensures c.unitID == unitID && c.unitName == unitName && c.unitImage == unitImage
    {
      c := new UnitData(unitID, unitName, unitImage);
    }
  }

  /**
   * A live unit. `inHole` and `fired` are written by the unit's own physics
   * callbacks, which are not part of this model; the manager only reads them.
   */
  class Unit {
    var data: UnitData?
    var pos: Vec2
    var inHole: bool
    var fired: bool

    constructor (p: Vec2)
      ensures data == null && pos == p && !inHole && !fired
    {
      data := null;
      pos := p;
      inHole := false;
      fired := false;
    }

    method SetData(d: UnitData)
      modifies this
      ensures data == d && pos == old(pos) && inHole == old(inHole) && fired == old(fired)
    {
      data := d;
    }
  }
}
