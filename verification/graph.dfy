/** The timetable connection record shared by the loader, the id assignment and
    the search (`graph_edge` in lista1/zad1/astar.h). Coordinates are carried as
    reals and never computed with. */
module Graph {

  datatype GraphEdge = GraphEdge(
    line: string,
    departureTime: int,
    arrivalTime: int,
    startStop: string,
    endStop: string,
    startStopId: int,
    endStopId: int,
    startStopLat: real,
    startStopLon: real,
    endStopLat: real,
    endStopLon: real)

}
