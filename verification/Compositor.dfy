/** The compositor and the linear framebuffer it paints on. */
module Compositor {
  import opened Arithmetic
  import opened Wrappers
  import opened SharedSurfaces

  type Color = x: int | 0 <= x < 0x1_0000_0000

  const MAX_WINDOWS: nat := 16
  const BACKGROUND: Color := 0x0022_3344
  const TRANSPARENT: Color := 0x00FF_00FF

  /** x and y are 32-bit signed, the rest 32-bit unsigned. */
  datatype Window = Window(surfaceId: nat, x: int, y: int, w: nat, h: nat, active: bool, zOrder: nat)

  // ---------------------------------------------------------------------
  // Framebuffer geometry
  // ---------------------------------------------------------------------

  /** Column and row of the k-th pixel word when a line has `stride` words. */
  function Col(k: nat, stride: nat): (x: nat)
    requires stride > 0
    ensures x < stride
  {
    k % stride
  }

  function Row(k: nat, stride: nat): nat
    requires stride > 0
  {
    k / stride
  }

  lemma WordOfPixel(x: nat, y: nat, stride: nat, k: nat)
    requires x < stride
    ensures k == y * stride + x <==> Col(k, stride) == x && Row(k, stride) == y
  {
    if k == y * stride + x {
      RemainderOf(k, stride, y, x);
      var q := k / stride;
      assert k == q * stride + x;
      assert (q - y) * stride == q * stride - y * stride;
      ProductBounds(q - y, stride);
    }
  }

  class Framebuffer {
    const words: array<Color>
    const mapped: bool
    const pitch: nat
    const width: nat
    const height: nat

    /** What the boot loader promises: a pitch of whole words at least as long as a
        line, a picture that fits in 32-bit addresses and in the mapped memory. */
    ghost predicate Valid() {
      && pitch % 4 == 0 && pitch >= 4 * width && 0 < pitch
      && height * pitch <= 0x1_0000_0000
      && width < 0x1_0000_0000 && height < 0x1_0000_0000
      && height * (pitch / 4) <= words.Length
    }

    function Stride(): nat {
      pitch / 4
    }

    /** Word k shows a pixel of the screen. */
    ghost predicate Visible(k: nat)
      requires Valid()
    {
      mapped && Col(k, Stride()) < width && Row(k, Stride()) < height
    }

    constructor (words: array<Color>, mapped: bool, pitch: nat, width: nat, height: nat)
      ensures this.words == words && this.mapped == mapped && this.pitch == pitch
      ensures this.width == width && this.height == height
    {
      this.words, this.mapped, this.pitch, this.width, this.height := words, mapped, pitch, width, height;
    }

    lemma InRange(x: nat, y: nat)
      requires Valid() && x < width && y < height
      ensures y * pitch < 0x1_0000_0000 && y * pitch / 4 == y * Stride()
      ensures y * Stride() + x < words.Length && y * Stride() + x < 0x4000_0000
      ensures x < Stride()
    {
      assert pitch == 4 * Stride();
      assert y * pitch == 4 * (y * Stride()) by { MulAssoc(y, Stride()); }
      MulUpTo(y, height, Stride());
      assert height * pitch == 4 * (height * Stride()) by { MulAssoc(height, Stride()); }
    }

    /** Off-screen coordinates are ignored; on screen exactly one word changes. */
    method PutPixel(x: nat, y: nat, color: Color)
      requires Valid() && x < 0x1_0000_0000 && y < 0x1_0000_0000
      modifies words
      ensures forall k :: 0 <= k < words.Length ==>
                words[k] == if Visible(k) && Col(k, Stride()) == x && Row(k, Stride()) == y then color else old(words[k])
    {
      if x >= width || y >= height || !mapped { return; }
      InRange(x, y);
      var offset := (y * pitch % 0x1_0000_0000 / 4 + x) % 0x1_0000_0000;
      assert offset == y * Stride() + x;
      words[offset] := color;
      forall k | 0 <= k < words.Length
        ensures words[k] == if Visible(k) && Col(k, Stride()) == x && Row(k, Stride()) == y then color else old(words[k])
      {
        WordOfPixel(x, y, Stride(), k);
      }
    }

    /** Fills a rectangle; its far edges wrap in 32 bits, which leaves it empty. */
    method FillRect(x: nat, y: nat, w: nat, h: nat, color: Color)
      requires Valid() && x < 0x1_0000_0000 && y < 0x1_0000_0000
      modifies words
      ensures var right, bottom := (x + w) % 0x1_0000_0000, (y + h) % 0x1_0000_0000;
              forall k :: 0 <= k < words.Length ==>
                words[k] == if Visible(k) && x <= Col(k, Stride()) < right && y <= Row(k, Stride()) < bottom
                            then color else old(words[k])
    {
      var right, bottom := (x + w) % 0x1_0000_0000, (y + h) % 0x1_0000_0000;
      var cy := y;
      while cy < bottom
        invariant y <= cy && (cy <= bottom || cy == y)
        invariant forall k :: 0 <= k < words.Length ==>
                    words[k] == if Visible(k) && x <= Col(k, Stride()) < right && y <= Row(k, Stride()) < cy
                                then color else old(words[k])
      {
        var cx := x;
        while cx < right
          invariant x <= cx && (cx <= right || cx == x)
          invariant forall k :: 0 <= k < words.Length ==>
                      words[k] == if Visible(k) && ((x <= Col(k, Stride()) < right && y <= Row(k, Stride()) < cy)
                                                    || (x <= Col(k, Stride()) < cx && Row(k, Stride()) == cy))
                                  then color else old(words[k])
        {
          PutPixel(cx, cy, color);
          cx := cx + 1;
        }
        cy := cy + 1;
      }
    }

    method Clear(color: Color)
      requires Valid()
      modifies words
      ensures forall k :: 0 <= k < words.Length ==> words[k] == if Visible(k) then color else old(words[k])
    {
      FillRect(0, 0, width, height, color);
    }
  }

  lemma MulAssoc(a: nat, s: nat)
    ensures a * (4 * s) == 4 * (a * s)
  {
  }

  lemma MulUpTo(y: nat, h: nat, s: nat)
    requires y < h
    ensures y * s + s <= h * s
  {
    assert (h - y) * s == h * s - y * s;
    ProductBounds(h - y, s);
  }

  // ---------------------------------------------------------------------
  // Windows and their surfaces
  // ---------------------------------------------------------------------

  /** The kernel's view of surface memory: the pixel at an index from a base address. */
  type PixelMemory = (nat, nat) -> Color

  /** The index of the first live surface with an id, from slot i on. */
  function Find(ss: seq<Surface>, id: nat, i: nat): (r: Option<nat>)
    requires i <= |ss|
    ensures r.None? ==> forall j :: i <= j && Live(ss, j) ==> ss[j].id != id
    ensures r.Some? ==> i <= r.value && Live(ss, r.value) && ss[r.value].id == id
    ensures r.Some? ==> forall j :: i <= j < r.value && Live(ss, j) ==> ss[j].id != id
    decreases |ss| - i
  {
    if i == |ss| then None
    else if ss[i].active && ss[i].id == id then Some(i)
    else Find(ss, id, i + 1)
  }

  /** Offset of screen coordinate p from a window edge at o, in 32-bit arithmetic. */
  function Rel(p: int, o: int): (d: nat)
    ensures d < 0x1_0000_0000
  {
    (p - o) % 0x1_0000_0000
  }

  lemma RelOfSum(p: nat, o: int, d: nat)
    requires p < 0x1_0000_0000 && d < 0x1_0000_0000
    ensures (o + d) % 0x1_0000_0000 == p <==> Rel(p, o) == d
  {
  }

  /** For windows and screens of at most 2^31 pixels a side the wrapped comparison is the
      geometric one, also for windows that begin left of or above the screen. */
  lemma ClipIsGeometric(p: nat, o: int, size: nat)
    requires p < 0x8000_0000 && -0x8000_0000 <= o < 0x8000_0000 && size <= 0x8000_0000
    ensures Rel(p, o) < size <==> o <= p < o + size
    ensures o <= p ==> Rel(p, o) == p - o
  {
  }

  function SurfaceColor(mem: PixelMemory, s: Surface, wx: nat, wy: nat): Color {
    mem(s.virtKernel, (wy * s.width + wx) % 0x1_0000_0000)
  }

  /** What a window showing surface s contributes to pixel (px, py). */
  function Contribution(mem: PixelMemory, win: Window, s: Surface, px: nat, py: nat): Option<Color> {
    var wx, wy := Rel(px, win.x), Rel(py, win.y);
    if wx < s.width && wy < s.height && SurfaceColor(mem, s, wx, wy) != TRANSPARENT
    then Some(SurfaceColor(mem, s, wx, wy)) else None
  }

  /** The surface shown with its corner at the window's lies over the pixel. */
  predicate Covers(win: Window, s: Surface, px: nat, py: nat) {
    win.x <= px < win.x + s.width && win.y <= py < win.y + s.height
  }

  predicate Coordinates(win: Window, s: Surface, px: nat, py: nat) {
    && px < 0x8000_0000 && py < 0x8000_0000
    && -0x8000_0000 <= win.x < 0x8000_0000 && -0x8000_0000 <= win.y < 0x8000_0000
    && s.width <= 0x8000_0000 && s.height <= 0x8000_0000
  }

  /** The word of the surface under the pixel, row by row from the surface's corner. */
  function WordUnder(mem: PixelMemory, win: Window, s: Surface, px: nat, py: nat): Color
    requires Covers(win, s, px, py)
  {
    var dx: nat, dy: nat := px - win.x, py - win.y;
    ProductBounds(dy, s.width);
    mem(s.virtKernel, (dy * s.width + dx) % 0x1_0000_0000)
  }

  lemma WordUnderIs(mem: PixelMemory, win: Window, s: Surface, px: nat, py: nat)
    requires Covers(win, s, px, py) && (py - win.y) * s.width + (px - win.x) < 0x1_0000_0000
    ensures (py - win.y) * s.width + (px - win.x) >= 0
    ensures WordUnder(mem, win, s, px, py) == mem(s.virtKernel, (py - win.y) * s.width + (px - win.x))
  {
    ProductBounds(py - win.y, s.width);
  }

  /** A window contributes to a pixel exactly where its surface lies over it and the word
      there is not the transparency key; it contributes that word. */
  lemma ContributionIsWordUnder(mem: PixelMemory, win: Window, s: Surface, px: nat, py: nat)
    requires Coordinates(win, s, px, py)
    ensures Contribution(mem, win, s, px, py)
         == if Covers(win, s, px, py) && WordUnder(mem, win, s, px, py) != 0x00FF_00FF
            then Some(WordUnder(mem, win, s, px, py)) else None
  {
    ClipIsGeometric(px, win.x, s.width);
    ClipIsGeometric(py, win.y, s.height);
    if Covers(win, s, px, py) {
      ProductBounds(py - win.y, s.width);
      hide Rel;
    }
  }

  /** The n-th layer in painting order: slot n % 16 if its z order is n / 16. */
  function Layer(mem: PixelMemory, wins: seq<Window>, ss: seq<Surface>, n: nat, px: nat, py: nat): Option<Color>
    requires |wins| == MAX_WINDOWS
  {
    var win := wins[n % 16];
    if !win.active || win.zOrder != n / 16 then None
    else
      var r := Find(ss, win.surfaceId, 0);
      if r.None? || ss[r.value].virtKernel == 0 then None
      else Contribution(mem, win, ss[r.value], px, py)
  }

  /** Painting the first n layers over the background, bottom to top. */
  function Painted(mem: PixelMemory, wins: seq<Window>, ss: seq<Surface>, n: nat, px: nat, py: nat): Color
    requires |wins| == MAX_WINDOWS
  {
    if n == 0 then BACKGROUND
    else
      match Layer(mem, wins, ss, n - 1, px, py)
      case Some(c) => c
      case None => Painted(mem, wins, ss, n - 1, px, py)
  }

  /** The painter's algorithm shows the topmost contribution: the last layer in (z order,
      slot) that contributes, and the background exactly where none does. */
  lemma {:induction false} TopmostWins(mem: PixelMemory, wins: seq<Window>, ss: seq<Surface>, n: nat, px: nat, py: nat)
    returns (top: int)
    requires |wins| == MAX_WINDOWS
    ensures -1 <= top < n
    ensures forall m: nat :: top < m < n ==> Layer(mem, wins, ss, m, px, py) == None
    ensures if top < 0 then Painted(mem, wins, ss, n, px, py) == BACKGROUND
            else Layer(mem, wins, ss, top, px, py) == Some(Painted(mem, wins, ss, n, px, py))
  {
    if n == 0 {
      top := -1;
    } else if Layer(mem, wins, ss, n - 1, px, py).Some? {
      top := n - 1;
    } else {
      top := TopmostWins(mem, wins, ss, n - 1, px, py);
    }
  }

  /** Copies one surface onto the screen; transparent pixels are skipped. */
  method PaintSurface(fb: Framebuffer, mem: PixelMemory, win: Window, s: Surface)
    requires fb.Valid() && s.width < 0x1_0000_0000 && s.height < 0x1_0000_0000
    modifies fb.words
    ensures forall k :: 0 <= k < fb.words.Length ==>
              fb.words[k] == if !fb.Visible(k) then old(fb.words[k])
                             else match Contribution(mem, win, s, Col(k, fb.Stride()), Row(k, fb.Stride()))
                               case Some(c) => c
                               case None => old(fb.words[k])
  {
    var wy := 0;
    while wy < s.height
      invariant 0 <= wy <= s.height
      invariant forall k :: 0 <= k < fb.words.Length ==>
                  fb.words[k] == Progress(fb, mem, win, s, k, wy, 0, old(fb.words[k]))
    {
      var wx := 0;
      while wx < s.width
        invariant 0 <= wx <= s.width
        invariant forall k :: 0 <= k < fb.words.Length ==>
                    fb.words[k] == Progress(fb, mem, win, s, k, wy, wx, old(fb.words[k]))
      {
        var color := SurfaceColor(mem, s, wx, wy);
        ghost var before := fb.words[..];
        if color != TRANSPARENT {
          fb.PutPixel((win.x + wx) % 0x1_0000_0000, (win.y + wy) % 0x1_0000_0000, color);
        }
        forall k | 0 <= k < fb.words.Length
          ensures fb.words[k] == Progress(fb, mem, win, s, k, wy, wx + 1, old(fb.words[k]))
        {
          assert before[k] == Progress(fb, mem, win, s, k, wy, wx, old(fb.words[k]));
          if fb.Visible(k) {
            RelOfSum(Col(k, fb.Stride()), win.x, wx);
            RelOfSum(Row(k, fb.Stride()), win.y, wy);
          }
        }
        wx := wx + 1;
      }
      wy := wy + 1;
    }
  }

  /** Word k once rows before wy and the first wx pixels of row wy are copied. */
  ghost function Progress(fb: Framebuffer, mem: PixelMemory, win: Window, s: Surface,
                          k: nat, wy: nat, wx: nat, was: Color): Color
    requires fb.Valid()
  {
    var dx, dy := Rel(Col(k, fb.Stride()), win.x), Rel(Row(k, fb.Stride()), win.y);
    if fb.Visible(k) && dx < s.width && (dy < wy || (dy == wy && dx < wx)) && SurfaceColor(mem, s, dx, dy) != TRANSPARENT
    then SurfaceColor(mem, s, dx, dy) else was
  }

  /** Redraws the screen: every visible word becomes the topmost contribution to its
      pixel, or the background; no other word is written. */
  method Render(fb: Framebuffer, windows: array<Window>, table: SurfaceTable, mem: PixelMemory)
    requires fb.Valid() && windows.Length == MAX_WINDOWS && table.Valid()
    requires SurfacesSized(table.surfaces[..]) && fb.words as object != table.pmm.bitmap
    modifies fb.words
    ensures forall k :: 0 <= k < fb.words.Length ==>
              fb.words[k] == if fb.Visible(k)
                             then Painted(mem, windows[..], table.surfaces[..], 256, Col(k, fb.Stride()), Row(k, fb.Stride()))
                             else old(fb.words[k])
  {
    ghost var was := fb.words[..];
    fb.Clear(BACKGROUND);
    ClearShowsNothing(fb, fb.words[..], mem, windows[..], table.surfaces[..], was);
    PaintAll(fb, windows, table, mem, was);
    ShownIs(fb, fb.words[..], mem, windows[..], table.surfaces[..], 256, was);
  }

  /** The two outer loops: all depths, and at each depth all slots. */
  method PaintAll(fb: Framebuffer, windows: array<Window>, table: SurfaceTable, mem: PixelMemory, ghost was: seq<Color>)
    requires fb.Valid() && windows.Length == MAX_WINDOWS && table.Valid() && |was| == fb.words.Length
    requires SurfacesSized(table.surfaces[..]) && fb.words as object != table.pmm.bitmap
    requires Shows(fb, fb.words[..], mem, windows[..], table.surfaces[..], 0, was)
    modifies fb.words
    ensures Shows(fb, fb.words[..], mem, windows[..], table.surfaces[..], 256, was)
  {
    assert MAX_WINDOWS == 16;
    hide *;
    for z := 0 to MAX_WINDOWS
      invariant Shows(fb, fb.words[..], mem, windows[..], table.surfaces[..], z * 16, was)
    {
      for i := 0 to MAX_WINDOWS
        invariant Shows(fb, fb.words[..], mem, windows[..], table.surfaces[..], z * 16 + i, was)
      {
        PaintSlot(fb, windows, table, mem, z, i, was);
      }
    }
  }

  /** The body of the two outer loops: paints slot i if it is at depth z. */
  method PaintSlot(fb: Framebuffer, windows: array<Window>, table: SurfaceTable, mem: PixelMemory,
                   z: nat, i: nat, ghost was: seq<Color>)
    requires fb.Valid() && windows.Length == MAX_WINDOWS && table.Valid() && |was| == fb.words.Length
    requires SurfacesSized(table.surfaces[..]) && fb.words as object != table.pmm.bitmap && i < MAX_WINDOWS
    requires Shows(fb, fb.words[..], mem, windows[..], table.surfaces[..], z * 16 + i, was)
    modifies fb.words
    ensures Shows(fb, fb.words[..], mem, windows[..], table.surfaces[..], z * 16 + i + 1, was)
  {
    hide SurfaceTable.Valid, Framebuffer.Valid, Framebuffer.Visible, Find, Shows, Layer, Contribution, SurfacesSized;
    ghost var before := fb.words[..];
    var win := windows[i];
    ghost var ss := table.surfaces[..];
    if win.active && win.zOrder == z {
      var r := table.Get(win.surfaceId);
      GetIsFind(ss, win.surfaceId, r);
      if r.Some? && table.surfaces[r.value].virtKernel != 0 {
        Sizes(ss, r.value);
        PaintSurface(fb, mem, win, table.surfaces[r.value]);
        OneLayer(fb, fb.words[..], before, mem, windows[..], ss, z, i, r.value, was);
        return;
      }
    }
    NoLayer(fb, before, mem, windows[..], ss, z, i, was);
  }

  lemma GetIsFind(ss: seq<Surface>, id: nat, r: Option<nat>)
    requires r.None? ==> forall i :: Live(ss, i) ==> ss[i].id != id
    requires r.Some? ==> Live(ss, r.value) && ss[r.value].id == id
    requires r.Some? ==> forall i :: Live(ss, i) && i < r.value ==> ss[i].id != id
    ensures r == Find(ss, id, 0)
  {
  }

  lemma Sizes(ss: seq<Surface>, i: nat)
    requires SurfacesSized(ss) && Live(ss, i)
    ensures i < |ss| && ss[i].width < 0x1_0000_0000 && ss[i].height < 0x1_0000_0000
  {
  }

  lemma ClearShowsNothing(fb: Framebuffer, words: seq<Color>, mem: PixelMemory, wins: seq<Window>, ss: seq<Surface>,
                          was: seq<Color>)
    requires fb.Valid() && |wins| == MAX_WINDOWS && |was| == |words| == fb.words.Length
    requires forall k :: 0 <= k < |words| ==> words[k] == if fb.Visible(k) then BACKGROUND else was[k]
    ensures Shows(fb, words, mem, wins, ss, 0, was)
  {
  }

  lemma ShownIs(fb: Framebuffer, words: seq<Color>, mem: PixelMemory, wins: seq<Window>, ss: seq<Surface>, n: nat,
                was: seq<Color>)
    requires fb.Valid() && |wins| == MAX_WINDOWS && |was| == |words| == fb.words.Length
    requires Shows(fb, words, mem, wins, ss, n, was)
    ensures forall k :: 0 <= k < |words| ==>
              words[k] == if fb.Visible(k) then Painted(mem, wins, ss, n, Col(k, fb.Stride()), Row(k, fb.Stride()))
                          else was[k]
  {
  }

  /** Slot i contributes nothing at depth z. */
  lemma NoLayer(fb: Framebuffer, words: seq<Color>, mem: PixelMemory, wins: seq<Window>, ss: seq<Surface>,
                z: nat, i: nat, was: seq<Color>)
    requires fb.Valid() && |wins| == MAX_WINDOWS && |was| == |words| == fb.words.Length && i < MAX_WINDOWS
    requires Shows(fb, words, mem, wins, ss, z * 16 + i, was)
    requires var r := Find(ss, wins[i].surfaceId, 0);
             !wins[i].active || wins[i].zOrder != z || r.None? || ss[r.value].virtKernel == 0
    ensures Shows(fb, words, mem, wins, ss, z * 16 + i + 1, was)
  {
    forall k | 0 <= k < |words| && fb.Visible(k)
      ensures words[k] == Painted(mem, wins, ss, z * 16 + i + 1, Col(k, fb.Stride()), Row(k, fb.Stride()))
    {
      LayerOf(mem, wins, ss, z, i, Col(k, fb.Stride()), Row(k, fb.Stride()));
      hide Layer, Find;
    }
  }

  /** Slot i has painted the surface found for it. */
  lemma OneLayer(fb: Framebuffer, words: seq<Color>, before: seq<Color>, mem: PixelMemory, wins: seq<Window>,
                 ss: seq<Surface>, z: nat, i: nat, j: nat, was: seq<Color>)
    requires fb.Valid() && |wins| == MAX_WINDOWS && |was| == |words| == |before| == fb.words.Length && i < MAX_WINDOWS
    requires Shows(fb, before, mem, wins, ss, z * 16 + i, was)
    requires wins[i].active && wins[i].zOrder == z && Find(ss, wins[i].surfaceId, 0) == Some(j) && j < |ss|
    requires ss[j].virtKernel != 0
    requires forall k :: 0 <= k < |words| ==>
               words[k] == if !fb.Visible(k) then before[k]
                           else match Contribution(mem, wins[i], ss[j], Col(k, fb.Stride()), Row(k, fb.Stride()))
                                case Some(c) => c
                                case None => before[k]
    ensures Shows(fb, words, mem, wins, ss, z * 16 + i + 1, was)
  {
    forall k | 0 <= k < |words| && fb.Visible(k)
      ensures words[k] == Painted(mem, wins, ss, z * 16 + i + 1, Col(k, fb.Stride()), Row(k, fb.Stride()))
    {
      LayerOf(mem, wins, ss, z, i, Col(k, fb.Stride()), Row(k, fb.Stride()));
      hide Layer, Find, Contribution;
    }
  }

  /** The layer slot i contributes at depth z, given where its surface was found. */
  lemma LayerOf(mem: PixelMemory, wins: seq<Window>, ss: seq<Surface>, z: nat, i: nat, px: nat, py: nat)
    requires |wins| == MAX_WINDOWS && i < MAX_WINDOWS
    ensures var layer, win, r := Layer(mem, wins, ss, z * 16 + i, px, py), wins[i], Find(ss, wins[i].surfaceId, 0);
            && (!win.active || win.zOrder != z || r.None? || ss[r.value].virtKernel == 0 ==> layer == None)
            && (win.active && win.zOrder == z && r.Some? && ss[r.value].virtKernel != 0 ==>
                  layer == Contribution(mem, win, ss[r.value], px, py))
  {
    assert (z * 16 + i) % 16 == i && (z * 16 + i) / 16 == z;
  }

  /** Window k is painted after window i. */
  predicate Above(wins: seq<Window>, k: nat, i: nat)
    requires k < |wins| && i < |wins|
  {
    wins[k].active && wins[k].zOrder < 16
    && (wins[k].zOrder > wins[i].zOrder || (wins[k].zOrder == wins[i].zOrder && k > i))
  }

  /** The window shows a surface, and that surface lies over the pixel. */
  predicate Over(wins: seq<Window>, ss: seq<Surface>, k: nat, px: nat, py: nat)
    requires k < |wins|
  {
    var r := Find(ss, wins[k].surfaceId, 0);
    r.Some? && ss[r.value].virtKernel != 0 && Covers(wins[k], ss[r.value], px, py)
  }

  /** Positions and sizes at which wrapped clipping is geometric. */
  ghost predicate OnPlane(wins: seq<Window>, ss: seq<Surface>, px: nat, py: nat) {
    forall k: nat, j: nat :: k < |wins| && j < |ss| ==> Coordinates(wins[k], ss[j], px, py)
  }

  /** A window that is not over the pixel leaves its layers empty there. */
  lemma LayerNeedsCover(mem: PixelMemory, wins: seq<Window>, ss: seq<Surface>, m: nat, px: nat, py: nat)
    requires |wins| == MAX_WINDOWS && OnPlane(wins, ss, px, py)
    requires !(wins[m % 16].active && wins[m % 16].zOrder == m / 16 && Over(wins, ss, m % 16, px, py))
    ensures Layer(mem, wins, ss, m, px, py) == None
  {
    var r := Find(ss, wins[m % 16].surfaceId, 0);
    if r.Some? {
      ContributionIsWordUnder(mem, wins[m % 16], ss[r.value], px, py);
      hide Contribution;
    }
  }

  /** The screen shows the word under the pixel of a window over it, if that word is not
      the key and no window painted later is over the pixel. */
  lemma TopmostOpaqueShows(mem: PixelMemory, wins: seq<Window>, ss: seq<Surface>, i: nat, px: nat, py: nat)
    requires |wins| == MAX_WINDOWS && i < MAX_WINDOWS && OnPlane(wins, ss, px, py)
    requires wins[i].active && wins[i].zOrder < 16 && Over(wins, ss, i, px, py)
    requires forall k :: 0 <= k < MAX_WINDOWS && Above(wins, k, i) ==> !Over(wins, ss, k, px, py)
    ensures var word := WordUnder(mem, wins[i], ss[Find(ss, wins[i].surfaceId, 0).value], px, py);
            word != 0x00FF_00FF ==> Painted(mem, wins, ss, 256, px, py) == word
  {
    var z, j := wins[i].zOrder, Find(ss, wins[i].surfaceId, 0).value;
    var n := z * 16 + i;
    ContributionIsWordUnder(mem, wins[i], ss[j], px, py);
    LayerOf(mem, wins, ss, z, i, px, py);
    forall m: nat | n < m < 256
      ensures Layer(mem, wins, ss, m, px, py) == None
    {
      assert wins[m % 16].active && wins[m % 16].zOrder == m / 16 ==> Above(wins, m % 16, i);
      LayerNeedsCover(mem, wins, ss, m, px, py);
    }
    hide Layer, Contribution, Painted, Over, WordUnder, Covers;
    var top := TopmostWins(mem, wins, ss, 256, px, py);
  }

  /** Where no active window with a depth below 16 is over the pixel, the background shows. */
  lemma BackgroundShows(mem: PixelMemory, wins: seq<Window>, ss: seq<Surface>, px: nat, py: nat)
    requires |wins| == MAX_WINDOWS && OnPlane(wins, ss, px, py)
    requires forall k :: 0 <= k < MAX_WINDOWS && wins[k].active && wins[k].zOrder < 16 ==> !Over(wins, ss, k, px, py)
    ensures Painted(mem, wins, ss, 256, px, py) == 0x0022_3344
  {
    forall m: nat | m < 256
      ensures Layer(mem, wins, ss, m, px, py) == None
    {
      LayerNeedsCover(mem, wins, ss, m, px, py);
    }
    hide Layer, Painted, Over;
    var top := TopmostWins(mem, wins, ss, 256, px, py);
  }

  /** Surface dimensions are 32-bit. */
  ghost predicate SurfacesSized(ss: seq<Surface>) {
    forall i :: Live(ss, i) ==> ss[i].width < 0x1_0000_0000 && ss[i].height < 0x1_0000_0000
  }

  /** The screen after n layers. */
  ghost predicate Shows(fb: Framebuffer, words: seq<Color>, mem: PixelMemory, wins: seq<Window>, ss: seq<Surface>,
                        n: nat, was: seq<Color>)
    requires fb.Valid() && |wins| == MAX_WINDOWS && |was| == |words| == fb.words.Length
  {
    forall k :: 0 <= k < |words| ==>
      words[k] == if fb.Visible(k) then Painted(mem, wins, ss, n, Col(k, fb.Stride()), Row(k, fb.Stride())) else was[k]
  }
}
