/** Result.java: the record a solver returns. Solution, message, iteration
    count, time and residual are fixed at construction; determinant and rank
    start at 0 and are changed only by their setters. */
module Results {
  import opened Vectors

  class Result {
    /** Absent (null) when the solver found no solution. */
    const solution: Vector?
    const message: string
    const iterations: int
    /** Milliseconds, as read from a clock outside the model. */
    const computationTime: int
    const residual: real
    var determinant: real
    var rank: int

    constructor (solution: Vector?, message: string, iterations: int, computationTime: int, residual: real)
      ensures this.solution == solution && this.message == message
      ensures this.iterations == iterations && this.computationTime == computationTime
      ensures this.residual == residual
      ensures determinant == 0.0 && rank == 0
    {
      this.solution := solution;
      this.message := message;
      this.iterations := iterations;
      this.computationTime := computationTime;
      this.residual := residual;
      determinant := 0.0;
      rank := 0;
    }

    /** The four-argument constructor: the residual defaults to 0.0. */
    constructor WithoutResidual(solution: Vector?, message: string, iterations: int, computationTime: int)
      ensures this.solution == solution && this.message == message
      ensures this.iterations == iterations && this.computationTime == computationTime
      ensures residual == 0.0
      ensures determinant == 0.0 && rank == 0
    {
      this.solution := solution;
      this.message := message;
      this.iterations := iterations;
      this.computationTime := computationTime;
      residual := 0.0;
      determinant := 0.0;
      rank := 0;
    }

    method SetDeterminant(d: real)
      modifies this
      ensures determinant == d && rank == old(rank)
    {
      determinant := d;
    }

    method SetRank(k: int)
      modifies this
      ensures rank == k && determinant == old(determinant)
    {
      rank := k;
    }
  }
}
