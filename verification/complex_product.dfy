/** The "optimal" product of two complex numbers with integer parts, computed
    with three multiplications instead of four (cs232_Lab10_2020). Integers are
    mathematical here: the 32-bit overflow of the original is not modelled. */
module ComplexProduct {

  datatype Complex = Complex(re: int, im: int)

  /** Reference definition: (a + bi)(c + di) = (ac - bd) + (ad + bc)i. */
  function Product(x: Complex, y: Complex): Complex
  {
    Complex(x.re * y.re - x.im * y.im, x.re * y.im + x.im * y.re)
  }

  /** The imaginary part the original assembles from its third product. */
  lemma ThreeProductImaginary(a: int, b: int, c: int, d: int)
    ensures (a + b) * (c + d) - a * c - b * d == a * d + b * c
  {
    calc {
      (a + b) * (c + d);
    ==
      a * (c + d) + b * (c + d);
    ==
      a * c + a * d + b * c + b * d;
    }
  }

  /** computeComplex: three multiplications p1 = ac, p2 = bd,
      p3 = (a + b)(c + d); the result is (p1 - p2) + (p3 - p1 - p2)i.
      `multiplications` is incremented after each multiplication performed. */
  method ComputeComplex(a: int, b: int, c: int, d: int) returns (r: Complex, multiplications: nat)
    ensures r == Product(Complex(a, b), Complex(c, d))
    ensures multiplications == 3
  {
    multiplications := 0;
    var p1 := a * c;
    multiplications := multiplications + 1;
    var p2 := b * d;
    multiplications := multiplications + 1;
    var p3 := (a + b) * (c + d);
    multiplications := multiplications + 1;
    ThreeProductImaginary(a, b, c, d);
    r := Complex(p1 - p2, p3 - p1 - p2);
  }

  /** The product does not depend on the order of the operands. */
  lemma ProductCommutes(x: Complex, y: Complex)
    ensures Product(x, y) == Product(y, x)
  {
  }

  /** 1 + 0i is a unit of the product. */
  lemma ProductUnit(x: Complex)
    ensures Product(x, Complex(1, 0)) == x
    ensures Product(Complex(1, 0), x) == x
  {
  }
}
